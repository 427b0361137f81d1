/** The six outputs derived from the AdGuard browser list (`generateAdditionalFormats`):
    one shared header, an optional marker line, then one entry per accepted blocking rule,
    in input order and without de-duplication. */
module Emitters {
  import opened Text
  import opened Classifier

  /** The target formats, written to filters/hosts.txt, filters/dnsmasq.conf,
      filters/unbound.conf, filters/named.conf, filters/privoxy.action and
      filters/shadowrocket.conf. */
  datatype Format = Hosts | Dnsmasq | Unbound | Named | Privoxy | Shadowrocket

  const TitleLine := "# Title: Blockingmachine AdGuard List"
  const DescriptionLine := "# Description: Combined filter list optimized for AdGuard"
  const HomepageLine := "# Homepage: https://github.com/danielhipskind/blockingmachine"
  const LicenseLine := "# License: BSD-3-Clause"
  const AuthorLine := "# Made by: Daniel Hipskind"
  const VersionLine := "# Version: 3.0.0"
  const StampLabel := "# Last Updated: "
  const ExpiresLine := "# Expires: 1 day"

  /** The nine header lines pushed first in every format: eight comment lines, the
      seventh stamped with the clock reading, and an empty line. The title is the same
      for all six formats. */
  function Header(timestamp: string): seq<string>
  {
    [ TitleLine, DescriptionLine, HomepageLine, LicenseLine, AuthorLine, VersionLine,
      StampLabel + timestamp, ExpiresLine, "" ]
  }

  /** The line pushed after the header and before the first entry, if any. */
  function Marker(f: Format): (m: seq<string>)
    ensures |m| <= 1
    ensures m != [] <==> f == Privoxy || f == Shadowrocket
  {
    match f
    case Privoxy => ["{+block{Blockingmachine Blocklist}}"]
    case Shadowrocket => ["[Rule]"]
    case _ => []
  }

  /** Number of lines each accepted domain contributes. */
  function EntryWidth(f: Format): nat
  {
    if f == Unbound then 2 else 1
  }

  /** The number of lines taken by `n` entries: `EntryWidth(f) * n`, kept linear. */
  function BodySize(f: Format, n: nat): nat
  {
    if f == Unbound then n + n else n
  }

  /** The lines pushed for one accepted domain: the domain between the format's affixes,
      and for unbound a second `local-data` line. */
  function Entry(f: Format, d: string): (entry: seq<string>)
    ensures |entry| == EntryWidth(f)
  {
    var (pre, suf) := EntryAffixes(f);
    if f == Unbound then [pre + d + suf, "local-data: \"" + d + " A 0.0.0.0\""]
    else [pre + d + suf]
  }

  /** The text around the domain in the first line of an entry, per format. */
  function EntryAffixes(f: Format): (string, string)
  {
    match f
    case Hosts => ("0.0.0.0 ", "")
    case Dnsmasq => ("address=/", "/0.0.0.0")
    case Unbound => ("local-zone: \"", "\" redirect")
    case Named => ("zone \"", "\" { type master; file \"/dev/null\"; };")
    case Privoxy => (".", "")
    case Shadowrocket => ("DOMAIN-SUFFIX,", ",REJECT")
  }

  /** Reads the domain back out of the first line of an entry. */
  function EntryDomain(f: Format, line: string): string
  {
    RemoveSuffix(RemovePrefix(line, EntryAffixes(f).0), EntryAffixes(f).1)
  }

  /** Stripping the affixes of `pre + d + suf` gives back `d`. */
  lemma AffixRoundTrip(pre: string, d: string, suf: string)
    ensures RemoveSuffix(RemovePrefix(pre + d + suf, pre), suf) == d
  {
    var line := pre + d + suf;
    assert line[..|pre|] == pre && line[|pre|..] == d + suf;
    assert (d + suf)[|d|..] == suf && (d + suf)[..|d|] == d;
  }

  /** The first line of every entry gives back its domain. */
  lemma EntryRoundTrip(f: Format, d: string)
    ensures EntryDomain(f, Entry(f, d)[0]) == d
  {
    var (pre, suf) := EntryAffixes(f);
    assert Entry(f, d)[0] == pre + d + suf;
    AffixRoundTrip(pre, d, suf);
  }

  /** The domains of the accepted blocking rules among `lines`, in order. */
  function Domains(lines: seq<string>): (ds: seq<string>)
    ensures |ds| <= |lines|
  {
    if lines == [] then []
    else Domains(lines[..|lines| - 1]) + LineDomain(lines[|lines| - 1])
  }

  /** What one line contributes: its domain when the classifier accepts it, else nothing. */
  function LineDomain(line: string): seq<string>
  {
    match ParseBlocking(line)
    case Some(d) => [d]
    case None => []
  }

  /** The entries for a sequence of domains, one after the other. */
  function Body(f: Format, ds: seq<string>): seq<string>
  {
    if ds == [] then []
    else Body(f, ds[..|ds| - 1]) + Entry(f, ds[|ds| - 1])
  }

  /** The whole output of one format, as a sequence of lines. */
  function Artifact(f: Format, lines: seq<string>, timestamp: string): (a: seq<string>)
    ensures |a| == 9 + |Marker(f)| + BodySize(f, |Domains(lines)|)
  {
    BodyLength(f, Domains(lines));
    Header(timestamp) + Marker(f) + Body(f, Domains(lines))
  }

  /** One emitter block: push the header (and marker), then walk the lines and push the
      entry of each accepted blocking rule. */
  method Emit(f: Format, lines: seq<string>, timestamp: string) returns (out: seq<string>)
    ensures out == Artifact(f, lines, timestamp)
  {
    var head := Header(timestamp) + Marker(f);
    out := head;
    for i := 0 to |lines|
      invariant out == head + Body(f, Domains(lines[..i]))
    {
      ghost var before := Body(f, Domains(lines[..i]));
      BodyExtends(f, lines, i);
      match ParseBlocking(lines[i]) {
        case Some(domain) =>
          AppendAssociates(head, before, Entry(f, domain));
          out := out + Entry(f, domain);
        case None =>
          assert before + [] == before;
      }
    }
    assert lines[..|lines|] == lines;
  }

  /** The body of one more domain. */
  lemma BodyStep(f: Format, ds: seq<string>, d: string)
    ensures Body(f, ds + [d]) == Body(f, ds) + Entry(f, d)
  {
    assert (ds + [d])[..|ds|] == ds;
  }

  /** What one line adds to a body: the entry of its domain, or nothing. */
  function LineEntries(f: Format, line: string): seq<string>
  {
    match ParseBlocking(line)
    case Some(d) => Entry(f, d)
    case None => []
  }

  /** The body over one more line is the body so far followed by that line's entries. */
  lemma BodyExtends(f: Format, lines: seq<string>, i: nat)
    requires i < |lines|
    ensures Body(f, Domains(lines[..i + 1])) == Body(f, Domains(lines[..i])) + LineEntries(f, lines[i])
  {
    var ds := Domains(lines[..i]);
    assert lines[..i + 1][..i] == lines[..i];
    assert Domains(lines[..i + 1]) == ds + LineDomain(lines[i]);
    match ParseBlocking(lines[i]) {
      case Some(d) =>
        assert (ds + [d])[..|ds|] == ds;
      case None =>
        assert ds + [] == ds;
        assert Body(f, ds) + [] == Body(f, ds);
    }
  }

  /** `generateAdditionalFormats` without the file I/O: split the list once, then build
      and join each of the six outputs. Each block reads the clock on its own, so the
      stamp is given per format. */
  method GenerateAdditionalFormats(content: string, stamp: Format -> string)
    returns (hosts: string, dnsmasq: string, unbound: string, named: string,
             privoxy: string, shadowrocket: string)
    ensures hosts == Join(Artifact(Hosts, Split(content), stamp(Hosts)))
    ensures dnsmasq == Join(Artifact(Dnsmasq, Split(content), stamp(Dnsmasq)))
    ensures unbound == Join(Artifact(Unbound, Split(content), stamp(Unbound)))
    ensures named == Join(Artifact(Named, Split(content), stamp(Named)))
    ensures privoxy == Join(Artifact(Privoxy, Split(content), stamp(Privoxy)))
    ensures shadowrocket == Join(Artifact(Shadowrocket, Split(content), stamp(Shadowrocket)))
  {
    var lines := Split(content);
    var hostsRules := Emit(Hosts, lines, stamp(Hosts));
    hosts := Join(hostsRules);
    var dnsmasqRules := Emit(Dnsmasq, lines, stamp(Dnsmasq));
    dnsmasq := Join(dnsmasqRules);
    var unboundRules := Emit(Unbound, lines, stamp(Unbound));
    unbound := Join(unboundRules);
    var namedRules := Emit(Named, lines, stamp(Named));
    named := Join(namedRules);
    var privoxyRules := Emit(Privoxy, lines, stamp(Privoxy));
    privoxy := Join(privoxyRules);
    var shadowrocketRules := Emit(Shadowrocket, lines, stamp(Shadowrocket));
    shadowrocket := Join(shadowrocketRules);
  }

  /** The domains of the lines `a + b` are those of `a` followed by those of `b`: input
      order is kept, duplicates are kept, and rejected lines contribute nothing. */
  lemma {:induction false} DomainsAppend(a: seq<string>, b: seq<string>)
    ensures Domains(a + b) == Domains(a) + Domains(b)
  {
    if b == [] {
      assert a + b == a;
    } else {
      var b', last := b[..|b| - 1], b[|b| - 1];
      calc {
        Domains(a + b);
      == { DomainsUnfold(a + b);
           assert (a + b)[..|a + b| - 1] == a + b' && (a + b)[|a + b| - 1] == last; }
        Domains(a + b') + LineDomain(last);
      == { DomainsAppend(a, b'); }
        Domains(a) + Domains(b') + LineDomain(last);
      == { AppendAssociates(Domains(a), Domains(b'), LineDomain(last)); }
        Domains(a) + (Domains(b') + LineDomain(last));
      == { DomainsUnfold(b); }
        Domains(a) + Domains(b);
      }
    }
  }

  lemma DomainsUnfold(lines: seq<string>)
    requires lines != []
    ensures Domains(lines) == Domains(lines[..|lines| - 1]) + LineDomain(lines[|lines| - 1])
  {
  }

  /** A domain is emitted exactly when its rule `||d^` is one of the lines and d is plain. */
  lemma {:induction false} DomainsMembership(lines: seq<string>, d: string)
    ensures d in Domains(lines) <==> RuleText("||", d) in lines && IsPlainDomain(d)
  {
    if lines != [] {
      var init := lines[..|lines| - 1];
      var last := lines[|lines| - 1];
      DomainsMembership(init, d);
      ParseBlockingExact(last, d);
      assert lines == init + [last];
      assert d in LineDomain(last) <==> ParseBlocking(last) == Some(d);
    }
  }

  /** The positions of the lines the classifier accepts. */
  function AcceptedPositions(lines: seq<string>): set<nat>
  {
    set i: nat | i < |lines| && ParseBlocking(lines[i]).Some?
  }

  /** One domain per accepted line: rejected lines add nothing and duplicates are kept. */
  lemma {:induction false} DomainsCountAccepted(lines: seq<string>)
    ensures |Domains(lines)| == |AcceptedPositions(lines)|
  {
    if lines != [] {
      var n := |lines| - 1;
      DomainsCountAccepted(lines[..n]);
      AcceptedExtend(lines);
      if ParseBlocking(lines[n]).Some? {
        assert n !in AcceptedPositions(lines[..n]);
      }
    }
  }

  lemma AcceptedExtend(lines: seq<string>)
    requires lines != []
    ensures var n := |lines| - 1;
      AcceptedPositions(lines)
        == AcceptedPositions(lines[..n]) + (if ParseBlocking(lines[n]).Some? then {n} else {})
  {
    var n := |lines| - 1;
    assert forall i :: 0 <= i < n ==> lines[i] == lines[..n][i];
  }

  /** The body of every output has `EntryWidth(f)` lines per accepted input line: one for
      hosts, dnsmasq, named, Privoxy and Shadowrocket, two for unbound. */
  lemma BodyLineCount(f: Format, lines: seq<string>)
    ensures |Body(f, Domains(lines))| == BodySize(f, |AcceptedPositions(lines)|)
  {
    BodyLength(f, Domains(lines));
    DomainsCountAccepted(lines);
  }

  /** Each body has `EntryWidth(f)` lines per domain, and the k-th group is the entry of
      the k-th domain. */
  lemma {:induction false} BodyAt(f: Format, ds: seq<string>, k: nat, m: nat)
    requires k < |ds| && m < EntryWidth(f)
    ensures |Body(f, ds)| == BodySize(f, |ds|)
    ensures Body(f, ds)[BodySize(f, k) + m] == Entry(f, ds[k])[m]
  {
    var init := ds[..|ds| - 1];
    var last := ds[|ds| - 1];
    assert Body(f, ds) == Body(f, init) + Entry(f, last);
    BodyLength(f, init);
    if k < |ds| - 1 {
      BodyAt(f, init, k, m);
      assert init[k] == ds[k];
      assert BodySize(f, k) + m < |Body(f, init)|;
    }
  }

  lemma {:induction false} BodyLength(f: Format, ds: seq<string>)
    ensures |Body(f, ds)| == BodySize(f, |ds|)
  {
    if ds != [] {
      BodyLength(f, ds[..|ds| - 1]);
    }
  }

  /** Every format's body reads back as exactly the domains it was built from: it has
      `EntryWidth(f)` lines per domain, and the first line of the k-th group gives back the
      k-th domain, so all six outputs carry the same domains in the same order. */
  lemma BodyReadsBack(f: Format, ds: seq<string>, k: nat)
    requires k < |ds|
    ensures |Body(f, ds)| == BodySize(f, |ds|)
    ensures EntryDomain(f, Body(f, ds)[BodySize(f, k)]) == ds[k]
  {
    BodyAt(f, ds, k, 0);
    EntryRoundTrip(f, ds[k]);
  }

  /** The layout of every output: the nine shared header lines with the stamp on the
      seventh, the marker (one line for Privoxy and Shadowrocket, none otherwise), then
      the body. */
  lemma ArtifactLayout(f: Format, lines: seq<string>, timestamp: string)
    ensures var a := Artifact(f, lines, timestamp);
      && |a| >= 9 && a[..9] == Header(timestamp)
      && a[6] == StampLabel + timestamp && a[8] == ""
      && (f == Privoxy ==> a[9] == "{+block{Blockingmachine Blocklist}}" && a[10..] == Body(f, Domains(lines)))
      && (f == Shadowrocket ==> a[9] == "[Rule]" && a[10..] == Body(f, Domains(lines)))
      && (f != Privoxy && f != Shadowrocket ==> a[9..] == Body(f, Domains(lines)))
  {
    var h, m, b := Header(timestamp), Marker(f), Body(f, Domains(lines));
    ThreePartLayout(h, m, b);
    assert |h| == 9 && h[6] == StampLabel + timestamp && h[8] == "";
  }

  /** Where the three parts of a concatenation sit. */
  lemma ThreePartLayout<T>(h: seq<T>, m: seq<T>, b: seq<T>)
    ensures var a := h + m + b;
      && a[..|h|] == h && a[|h|..|h| + |m|] == m && a[|h| + |m|..] == b
      && forall i :: 0 <= i < |m| ==> a[|h| + i] == m[i]
  {
  }

  /** The domains of a one-line list are what that line contributes. */
  lemma DomainsSingle(line: string)
    ensures Domains([line]) == LineDomain(line)
  {
    assert [line][..0] == [];
  }

  /** A line not starting with a pipe contributes no domain. */
  lemma NoPipeNoDomain(line: string)
    requires line != [] && line[0] != '|'
    ensures Domains([line]) == []
  {
    DomainsSingle(line);
    assert !StartsWith(line, "||");
  }

  /** A rule `||d^` with a plain domain contributes exactly d. */
  lemma RuleGivesDomain(d: string)
    requires IsPlainDomain(d)
    ensures Domains([RuleText("||", d)]) == [d]
  {
    DomainsSingle(RuleText("||", d));
    ParseBlockingExact(RuleText("||", d), d);
  }

  /** A comment, two plain rules and an allow rule contribute the two rules' domains. */
  lemma FourLineDomains(l0: string, a: string, b: string, l3: string)
    requires l0 != [] && l0[0] != '|' && l3 != [] && l3[0] != '|'
    requires IsPlainDomain(a) && IsPlainDomain(b)
    ensures Domains([l0, RuleText("||", a), RuleText("||", b), l3]) == [a, b]
  {
    var l1, l2 := RuleText("||", a), RuleText("||", b);
    NoPipeNoDomain(l0);
    NoPipeNoDomain(l3);
    RuleGivesDomain(a);
    RuleGivesDomain(b);
    DomainsAppend([l0], [l1]);
    assert [l0] + [l1] == [l0, l1];
    DomainsAppend([l0, l1], [l2]);
    assert [l0, l1] + [l2] == [l0, l1, l2];
    DomainsAppend([l0, l1, l2], [l3]);
    assert [l0, l1, l2] + [l3] == [l0, l1, l2, l3];
  }

  /** The worked example: a comment and an allow rule contribute no domain. */
  lemma ExampleDomains()
    ensures Domains(["! comment", "||a.test^", "||b.test^", "@@||c.test^"]) == ["a.test", "b.test"]
  {
    assert "||a.test^" == RuleText("||", "a.test") && "||b.test^" == RuleText("||", "b.test");
    FourLineDomains("! comment", "a.test", "b.test", "@@||c.test^");
  }

  /** The worked example's hosts and dnsmasq bodies. */
  lemma ExampleBodies()
    ensures Body(Hosts, ["a.test", "b.test"]) == ["0.0.0.0 a.test", "0.0.0.0 b.test"]
    ensures Body(Dnsmasq, ["a.test", "b.test"]) == ["address=/a.test/0.0.0.0", "address=/b.test/0.0.0.0"]
  {
    assert [] + ["a.test"] == ["a.test"] && ["a.test"] + ["b.test"] == ["a.test", "b.test"];
    BodyStep(Hosts, [], "a.test");
    BodyStep(Hosts, ["a.test"], "b.test");
    BodyStep(Dnsmasq, [], "a.test");
    BodyStep(Dnsmasq, ["a.test"], "b.test");
    assert "0.0.0.0 " + "a.test" + "" == "0.0.0.0 a.test";
    assert "0.0.0.0 " + "b.test" + "" == "0.0.0.0 b.test";
    assert "address=/" + "a.test" + "/0.0.0.0" == "address=/a.test/0.0.0.0";
    assert "address=/" + "b.test" + "/0.0.0.0" == "address=/b.test/0.0.0.0";
  }
}
