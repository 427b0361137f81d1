# Blockingmachine list derivation, in Dafny

Blockingmachine's update script (`scripts/update.js`) exports one AdGuard-syntax filter
list, `filters/adguardBrowser.txt`, and derives four things from it:

1. six outputs for other blockers: hosts, dnsmasq, unbound, BIND (named), Privoxy and
   Shadowrocket (`generateAdditionalFormats`);
2. a DNS-compatible AdGuard list, `filters/adguardDns.txt` (`generateDNSAdGuardList`);
3. a rule count for the README statistics;
4. two first-occurrence patches of the README (`updateReadme`).

This project models those text transformations and proves their properties. It does not
model the process and file plumbing around them.

The model has five modules:

- `Text` (text.dfy) covers the JavaScript string primitives the script relies on:
  - `split('\n')` and `join('\n')`, with both round trips;
  - ECMAScript `trim`;
  - `startsWith`.
- `Classifier` (classifier.dfy) covers rule patterns of the shape `^P[^X]{n,}\^$`, described
  as the set of strings they match. It also holds the blocking-rule classifier that all six
  emitters share. That classifier is the regex test, the removal of the leading `||` and
  the trailing `^`, and the guard `domain && !includes('*') && !includes('$')`.
- `Emitters` (emitters.dfy) models the six emitter blocks.
  - All six are one `Emit` method over a `Format` tag.
  - `Emit` keeps the source's loop: it pushes the header, then the marker line, then one
    entry per accepted line.
  - `Emit` is proved equal to the specification function `Artifact`.
  - Lemmas about `Artifact` state the header layout, the marker, the line counts, the
    input order and that each domain can be read back.
- `DnsFilter` (dns_filter.dfy) models the `split().filter().join()` chain of the DNS list.
  It also relates that chain to the emitters' classifier.
- `ReadmeStats` (readme_stats.dfy) models the README patch:
  - the rule count;
  - the en-US rendering of that count by `toLocaleString()`;
  - the non-global `replace` calls that stamp the date and the count.

Clock readings become parameters. The ISO timestamp of each emitter is `stamp(f)`, since
every block reads the clock on its own. The date `today` is a string parameter.

Three points follow the code rather than a looser description of it:

- The DNS filter only selects lines. It rewrites no header and recomputes no count.
- The header title `# Title: Blockingmachine AdGuard List` is the same in all six outputs.
- There is no finer rule classification than the single accept/reject classifier above.

## Model

| member | source | states |
|---|---|---|
| Text.Join | scripts/update.js:117 | `join('\n')`: the lines with one newline between neighbours and none at either end; its meaning is fixed by the two round-trip lemmas below |
| Text.Split | scripts/update.js:94 | `split('\n')` yields at least one piece, and no piece contains a newline |
| Text.JoinSplit | scripts/update.js:94 | joining the pieces of a split with `'\n'` gives back the original text |
| Text.SplitJoin | scripts/update.js:117 | splitting the `'\n'`-join of one or more newline-free lines gives back exactly those lines |
| Text.StartsWith | scripts/update.js:260 | `s.startsWith(p)`: `p` is a prefix of `s` |
| Text.Trim | scripts/update.js:260 | `s.trim()`: `trimStart` followed by `trimEnd`, over the ECMAScript whitespace and line-terminator set |
| Text.TrimStartSpec | scripts/update.js:260 | the leading strip leaves a suffix of the text, removes only whitespace, and what is left does not start with whitespace |
| Text.TrimEndSpec | scripts/update.js:260 | the trailing strip leaves a prefix of the text, removes only whitespace, and what is left does not end with whitespace |
| Text.TrimSpec | scripts/update.js:260 | `trim()` is a slice of the text with only whitespace before and after it, and it neither starts nor ends with whitespace |
| Text.TrimEmptyIffAllWhitespace | scripts/update.js:260 | `line.trim() === ''` holds exactly when every character is JavaScript whitespace or a line terminator |
| Classifier.MatchDecomposes | scripts/update.js:109 | a line matching a rule pattern is the prefix, then a middle of allowed characters of at least the minimum length, then `^` |
| Classifier.RuleTextMatches | scripts/update.js:265 | `prefix + middle + "^"` matches the pattern exactly when the middle is long enough and avoids the excluded characters |
| Classifier.IsBlockingRuleShape | scripts/update.js:109 | the emitters' regex test: two bars, a middle of at least one character other than `/`, `^` and `$`, and a final caret |
| Classifier.RemovePrefix | scripts/update.js:110 | `replace(/^p/, '')`: the text after a leading `p`, or the text unchanged |
| Classifier.RemoveSuffix | scripts/update.js:110 | `replace(/q$/, '')`: the text before a trailing `q`, or the text unchanged |
| Classifier.RemovePrefixSpec | scripts/update.js:110 | putting `p` back in front of what a leading-`p` removal leaves restores the text; without a leading `p` nothing is removed |
| Classifier.RemoveSuffixSpec | scripts/update.js:110 | putting `q` back after what a trailing-`q` removal leaves restores the text; without a trailing `q` nothing is removed |
| Classifier.IsPlainDomain | scripts/update.js:111 | the guard `domain && !domain.includes('*') && !domain.includes('$')`, together with the `/` and `^` the pattern already excludes |
| Classifier.ParseBlocking | scripts/update.js:109-111 | when the classifier returns a domain, the line is the block rule of that domain (two bars, the domain, a caret), and the domain is non-empty and free of `/`, `^`, `$` and `*` |
| Classifier.ParseBlockingExact | scripts/update.js:109-111 | the classifier returns `d` if and only if the line is the block rule of `d` with `d` non-empty and free of `/`, `^`, `$`, `*`; so the domain is exactly the text between the two-bar prefix and `^` |
| Classifier.PlainRuleAccepted | scripts/update.js:109-111 | the rule for `ads.test` is accepted with domain `ads.test` |
| Classifier.WildcardRuleRejected | scripts/update.js:111 | a domain holding `*` is rejected |
| Classifier.ModifierRuleRejected | scripts/update.js:109 | a rule with a `$` modifier after the caret is rejected |
| Emitters.Header | scripts/update.js:98-106 | the nine header lines every format pushes first: eight `#` comment lines with the clock reading on the seventh, then an empty line |
| Emitters.Marker | scripts/update.js:204-229 | exactly Privoxy and Shadowrocket push one marker line after the header; the other four push none |
| Emitters.Entry | scripts/update.js:91-246 | every format pushes one line per domain, except unbound, which pushes two |
| Emitters.AffixRoundTrip | scripts/update.js:110 | stripping a leading `pre` and a trailing `suf` from `pre + d + suf` gives back `d` |
| Emitters.EntryRoundTrip | scripts/update.js:108-115 | the domain can be read back from the first line of each format's entry |
| Emitters.Domains | scripts/update.js:108-115 | at most one domain per input line |
| Emitters.Artifact | scripts/update.js:91-246 | one format's whole array of lines: nine header lines, the marker, and one entry per accepted domain, so its length is 9 plus the marker plus the body size |
| Emitters.Emit | scripts/update.js:97-117 | the header and marker pushes plus the `forEach` loop build exactly `Artifact(f, lines, timestamp)` |
| Emitters.BodyExtends | scripts/update.js:108-115 | one loop step appends that line's entry lines, or nothing for a rejected line |
| Emitters.GenerateAdditionalFormats | scripts/update.js:91-246 | each of the six outputs is the `'\n'`-join of its format's artifact over the split input, stamped with that format's clock reading |
| Emitters.DomainsAppend | scripts/update.js:108-115 | the domains of concatenated inputs are the concatenated domains, so input order is kept |
| Emitters.DomainsMembership | scripts/update.js:108-115 | `d` is emitted exactly when some input line is the block rule of `d` and `d` is a plain domain |
| Emitters.DomainsCountAccepted | scripts/update.js:108-115 | the number of emitted domains equals the number of input positions the classifier accepts, duplicates included |
| Emitters.BodyLineCount | scripts/update.js:91-246 | the body has one line per accepted input line, or two for unbound |
| Emitters.BodyAt | scripts/update.js:91-246 | line `BodySize(f, k) + m` of the body is line `m` of the k-th domain's entry, so entries follow domain order |
| Emitters.BodyLength | scripts/update.js:108-115 | the body of `n` domains has `n` lines, or `2n` for unbound |
| Emitters.BodyReadsBack | scripts/update.js:108-115 | reading the domain out of the first line of the k-th entry gives the k-th domain |
| Emitters.ArtifactLayout | scripts/update.js:98-106 | every output starts with the nine header lines, with `# Last Updated: <timestamp>` seventh and an empty ninth; Privoxy and Shadowrocket then have their one marker line; the body follows |
| Emitters.DomainsSingle | scripts/update.js:108-115 | a one-line input yields that line's domain, or nothing |
| Emitters.NoPipeNoDomain | scripts/update.js:109 | a line not starting with a bar yields no domain |
| Emitters.RuleGivesDomain | scripts/update.js:109-111 | the block rule of a plain domain `d` yields exactly `[d]` |
| Emitters.FourLineDomains | scripts/update.js:108-115 | rejected lines around two rules contribute nothing, and the two domains stay in order |
| Emitters.ExampleDomains | scripts/update.js:108-115 | a comment, two block rules and an allow rule yield the two blocked domains |
| Emitters.ExampleBodies | scripts/update.js:108-141 | two domains give the expected hosts and dnsmasq lines, in order |
| DnsFilter.IsCommentOrBlank | scripts/update.js:260 | a line starting with `!` or `#`, or blank after `trim()`, is kept as a comment |
| DnsFilter.IsDnsBlockRule | scripts/update.js:265 | the DNS block-rule regex: two bars, a middle without `$` that may be empty, and a final caret |
| DnsFilter.IsDnsAllowRule | scripts/update.js:270 | the DNS allow-rule regex: the same shape after the `@@` exception prefix |
| DnsFilter.IsDnsCompatible | scripts/update.js:258-275 | the filter callback: true for a comment or blank line, a block rule or an allow rule, false otherwise |
| DnsFilter.FilterDns | scripts/update.js:258-276 | the kept lines are no more than the input lines; each one is in the input and passes the keep test |
| DnsFilter.GenerateDnsList | scripts/update.js:256-277 | the written DNS text splits back into exactly the kept lines, and is empty when no line is kept |
| DnsFilter.FilterIsSubsequence | scripts/update.js:256-277 | the output is an order-preserving subsequence of the input lines |
| DnsFilter.FilterMultiplicity | scripts/update.js:258-276 | a compatible line is kept as often as it occurs; an incompatible one is never kept |
| DnsFilter.KeptWhenCompatible | scripts/update.js:258-276 | every compatible input line appears in the output |
| DnsFilter.FilterIdempotent | scripts/update.js:258-276 | filtering the filter's output changes nothing |
| DnsFilter.GenerateDnsListIdempotent | scripts/update.js:256-277 | building the DNS list from a generated DNS list gives the same text |
| DnsFilter.ClassifiedRuleIsDnsCompatible | scripts/update.js:265 | every line the emitters' classifier accepts passes the DNS filter's block-rule test |
| DnsFilter.FilterKeepsDomains | scripts/update.js:256-277 | the emitters would extract the same domains, in the same order, from the DNS list as from the browser list |
| DnsFilter.EmittedDomainSurvives | scripts/update.js:256-277 | every domain emitted from the browser list appears as its block rule among the lines of the DNS list made from it |
| DnsFilter.DnsBlockRuleVersusClassifier | scripts/update.js:265 | among DNS-kept block-rule lines, the classifier accepts exactly those whose middle is a plain domain |
| ReadmeStats.IsRuleLine | scripts/update.js:299 | a counted line: non-blank after `trim()` and not starting with `!`, `#` or `[` |
| ReadmeStats.CountRules | scripts/update.js:298-300 | the rule count is at most the number of lines |
| ReadmeStats.CountRulesCountsPositions | scripts/update.js:298-300 | the count equals the number of positions holding a line that is non-blank after trimming and starts with none of `!`, `#`, `[` |
| ReadmeStats.UncountedLines | scripts/update.js:298-300 | comments, hash comments, section headers and blank lines are never counted |
| ReadmeStats.Decimal | scripts/update.js:302 | a decimal rendering is non-empty and all digits |
| ReadmeStats.DecimalValue | scripts/update.js:302 | a decimal rendering reads back as its number |
| ReadmeStats.FormatCount | scripts/update.js:302 | the en-US rendering consists only of digits and commas and starts with a digit, so it fits `[\d,]+` |
| ReadmeStats.GroupValue | scripts/update.js:302 | appending a comma and a three-digit group multiplies the value by 1000 and adds the group |
| ReadmeStats.FormatCountValue | scripts/update.js:302 | ignoring the commas, the rendered count reads back as the count |
| ReadmeStats.FormatCountExample | scripts/update.js:302 | 1234567 renders as `1,234,567` |
| ReadmeStats.DecimalShape | scripts/update.js:302 | the decimal digits have no leading zero unless the number is 0, and a number below 1000 has at most three |
| ReadmeStats.FormatCountGroups | scripts/update.js:302 | the en-US rendering is a first group of one to three digits followed by comma-and-three-digit groups, with no leading zero unless the count is 0 |
| ReadmeStats.Replacement | scripts/update.js:303-306 | the substituted text: the date label and `today`, or the count label, the formatted count and the closing bar |
| ReadmeStats.ReplacementMatches | scripts/update.js:303-306 | the replacement text built from a proper date or count is itself a match of its field's pattern |
| ReadmeStats.MatchEndAtExact | scripts/update.js:303-306 | the computed match end is `e` exactly when `s[i..e]` matches, so a match has one possible end at each start |
| ReadmeStats.FindFirstLeftmost | scripts/update.js:292 | the search returns a match with no match starting further left, and finds nothing only when there is no match |
| ReadmeStats.ReplaceFirst | scripts/update.js:292 | non-global `replace`: the leftmost match, if any, replaced by the given text |
| ReadmeStats.ReplaceFirstSpec | scripts/update.js:292 | with no match the text is unchanged; otherwise only the leftmost match is replaced and the text before and after it is kept |
| ReadmeStats.NoLabelInside | scripts/update.js:303-306 | a match contains no second copy of its label after its first character |
| ReadmeStats.ReplacedHasNoEarlierMatch | scripts/update.js:292 | the patch creates no new match to the left of the replaced one |
| ReadmeStats.ReplacementBecomesFirstMatch | scripts/update.js:292 | after the patch, the leftmost match is the replacement itself, at the old match's position |
| ReadmeStats.ReplaceFirstIdempotent | scripts/update.js:303-306 | applying the same date or count patch a second time changes nothing |
| ReadmeStats.UpdateReadme | scripts/update.js:289-306 | the date is always patched first; the count is patched only when the browser list was read, using the en-US rendering of its rule count |

## Left out

- The external `blockingmachine import/export` commands run through `child_process.exec`
  are not modelled. Neither are `process.chdir`, `mkdir`, `access`, `copyFile`, `readFile`,
  `writeFile` or the console logging. These are process and file I/O. The file contents
  become string parameters and results.
- The try/catch blocks that log and continue are not modelled, and neither is the
  orchestration in `updateFilters` or the exit wiring. A failed statistics read in
  `updateReadme` is modelled as `browserList == None`, and the statistics are then
  skipped. A failed export is re-thrown and fatal. A failed copy in `copyAndRenameFiles`
  (lines 77-88) is only logged: the six outputs are then not regenerated, but the DNS list
  and the README statistics are still built from whatever `filters/adguardBrowser.txt` is
  already on disk, possibly a stale one. The model takes that file's content as a
  parameter and does not capture which copy of it is read.
- Clock reads (`new Date().toISOString()`) are not modelled. The timestamps become the
  parameter `stamp`, and the date becomes the parameter `today`.
- `toLocaleString()` is modelled for the en-US locale only: groups of three digits
  separated by commas. Other locales are not modelled.
- JavaScript's `$`-patterns in `replace` strings are not modelled. The substituted date
  and count never contain `$`.
- The global table-date rewrite at `scripts/update.js:309-312` is not modelled. Its result
  depends on regex backtracking over `[\w\*\* ]+` and `[\w.]+MB?`.
- Regular expressions are modelled as the set of strings they match, with the search
  order of a non-global `replace`, and not as a backtracking engine.
- ReadmeStats.UpdateReadme: the model does not state or prove that the two patches together are
  idempotent. The table-date rewrite that follows them is not modelled either. Each
  patch alone is proved idempotent.
- Emitters.GenerateAdditionalFormats: the model does not prove that splitting a written output
  gives back its lines. That would also need newline-free domains and timestamps.
