/** The README patch of `updateReadme`: the rule count of the browser list, its en-US
    rendering, and the two first-occurrence replacements that stamp the date and the count. */
module ReadmeStats {
  import opened Text
  import opened Classifier

  // ---------------------------------------------------------------------------------------
  // The rule count

  /** A line the statistics count: non-blank after `trim()` and not starting with `!`, `#`
      or `[` (comments, hash comments and section headers such as `[Adblock Plus 2.0]`). */
  predicate IsRuleLine(line: string)
  {
    Trim(line) != [] && !StartsWith(line, "!") && !StartsWith(line, "#") && !StartsWith(line, "[")
  }

  /** `lines.filter(IsRuleLine).length`. */
  function CountRules(lines: seq<string>): (n: nat)
    ensures n <= |lines|
  {
    if lines == [] then 0
    else CountRules(lines[..|lines| - 1]) + (if IsRuleLine(lines[|lines| - 1]) then 1 else 0)
  }

  /** The positions of the counted lines. */
  function RuleLinePositions(lines: seq<string>): set<nat>
  {
    set i: nat | i < |lines| && IsRuleLine(lines[i])
  }

  /** The count is the number of positions holding a rule line. */
  lemma {:induction false} CountRulesCountsPositions(lines: seq<string>)
    ensures CountRules(lines) == |RuleLinePositions(lines)|
  {
    if lines != [] {
      var n := |lines| - 1;
      CountRulesCountsPositions(lines[..n]);
      PositionsExtend(lines);
      if IsRuleLine(lines[n]) {
        assert n !in RuleLinePositions(lines[..n]);
      }
    }
  }

  /** One more line adds its own position when it is a rule line. */
  lemma PositionsExtend(lines: seq<string>)
    requires lines != []
    ensures var n := |lines| - 1;
      RuleLinePositions(lines)
        == RuleLinePositions(lines[..n]) + (if IsRuleLine(lines[n]) then {n} else {})
  {
    var n := |lines| - 1;
    assert forall i :: 0 <= i < n ==> lines[i] == lines[..n][i];
  }

  /** A comment, a hash comment, a section header or a blank line is never counted. */
  lemma UncountedLines(line: string)
    ensures StartsWith(line, "!") || StartsWith(line, "#") || StartsWith(line, "[") || AllWhitespace(line)
        ==> !IsRuleLine(line)
  {
    TrimEmptyIffAllWhitespace(line);
  }

  // ---------------------------------------------------------------------------------------
  // `toLocaleString()` in the en-US locale

  predicate IsDigit(c: char)
  {
    '0' <= c <= '9'
  }

  /** The characters of `[\d,]`. */
  predicate IsCountChar(c: char)
  {
    IsDigit(c) || c == ','
  }

  /** The text of `[\d,]+`. */
  predicate IsCountText(s: string)
  {
    s != [] && forall i :: 0 <= i < |s| ==> IsCountChar(s[i])
  }

  function DigitChar(k: nat): (c: char)
    requires k < 10
    ensures IsDigit(c)
  {
    (48 + k) as char
  }

  function DigitValue(c: char): nat
    requires IsDigit(c)
  {
    c as int - 48
  }

  /** `n.toString()`: decimal digits without leading zeros. */
  function Decimal(n: nat): (s: string)
    ensures s != [] && IsDigit(s[0])
    ensures forall i :: 0 <= i < |s| ==> IsDigit(s[i])
  {
    if n < 10 then [DigitChar(n)] else Decimal(n / 10) + [DigitChar(n % 10)]
  }

  /** A group of three digits, with leading zeros. */
  function Pad3(k: nat): (s: string)
    requires k < 1000
    ensures |s| == 3 && forall i :: 0 <= i < 3 ==> IsDigit(s[i])
  {
    [DigitChar(k / 100), DigitChar(k / 10 % 10), DigitChar(k % 10)]
  }

  /** `n.toLocaleString()` in the en-US locale: the decimal digits with a comma before each
      group of three counted from the right. */
  function FormatCount(n: nat): (s: string)
    ensures IsCountText(s) && IsDigit(s[0])
  {
    if n < 1000 then Decimal(n)
    else
      var high, group := FormatCount(n / 1000), Pad3(n % 1000);
      assert forall i :: 0 <= i < |high + "," + group| ==> IsCountChar((high + "," + group)[i]);
      high + "," + group
  }

  /** The number a `[\d,]+` text denotes, commas ignored. */
  function Value(s: string): nat
    requires forall i :: 0 <= i < |s| ==> IsCountChar(s[i])
  {
    if s == [] then 0
    else
      var last := s[|s| - 1];
      assert IsCountChar(last);
      if last == ',' then Value(s[..|s| - 1]) else Value(s[..|s| - 1]) * 10 + DigitValue(last)
  }

  /** The decimal rendering reads back as the number. */
  lemma {:induction false} DecimalValue(n: nat)
    ensures Value(Decimal(n)) == n
  {
    if n >= 10 {
      DecimalValue(n / 10);
      var s := Decimal(n);
      assert s[..|s| - 1] == Decimal(n / 10);
    }
  }

  /** Appending a comma and a group of three digits multiplies by a thousand and adds. */
  lemma GroupValue(high: string, k: nat)
    requires k < 1000
    requires forall i :: 0 <= i < |high| ==> IsCountChar(high[i])
    ensures forall i :: 0 <= i < |high + "," + Pad3(k)| ==> IsCountChar((high + "," + Pad3(k))[i])
    ensures Value(high + "," + Pad3(k)) == Value(high) * 1000 + k
  {
    var g := Pad3(k);
    var s0 := high + [','];
    var s1 := s0 + [g[0]];
    var s2 := s1 + [g[1]];
    var s3 := s2 + [g[2]];
    ValueAppend(high, ',');
    ValueAppend(s0, g[0]);
    ValueAppend(s1, g[1]);
    ValueAppend(s2, g[2]);
    Pad3Value(k);
    ShiftThree(Value(high), DigitValue(g[0]), DigitValue(g[1]), DigitValue(g[2]));
    assert s3 == high + "," + g;
  }

  /** The three digits of a padded group read back as the group. */
  lemma Pad3Value(k: nat)
    requires k < 1000
    ensures var g := Pad3(k); DigitValue(g[0]) * 100 + DigitValue(g[1]) * 10 + DigitValue(g[2]) == k
  {
    var g := Pad3(k);
    assert DigitValue(g[0]) == k / 100 && DigitValue(g[1]) == k / 10 % 10 && DigitValue(g[2]) == k % 10;
  }

  /** Reading three digits after `v` multiplies `v` by a thousand. */
  lemma ShiftThree(v: int, a: int, b: int, c: int)
    ensures ((v * 10 + a) * 10 + b) * 10 + c == v * 1000 + (a * 100 + b * 10 + c)
  {
  }

  /** Reading one more character: a comma adds nothing, a digit shifts the value. */
  lemma ValueAppend(s: string, c: char)
    requires forall i :: 0 <= i < |s| ==> IsCountChar(s[i])
    requires IsCountChar(c)
    ensures forall i :: 0 <= i < |s + [c]| ==> IsCountChar((s + [c])[i])
    ensures Value(s + [c]) == if c == ',' then Value(s) else Value(s) * 10 + DigitValue(c)
  {
    assert (s + [c])[..|s|] == s;
  }

  /** The en-US rendering reads back as the number. */
  lemma {:induction false} FormatCountValue(n: nat)
    ensures Value(FormatCount(n)) == n
  {
    if n < 1000 {
      DecimalValue(n);
    } else {
      FormatCountValue(n / 1000);
      GroupValue(FormatCount(n / 1000), n % 1000);
    }
  }

  /** The en-US shape: a leading group of one to three digits, then groups of a comma and
      three digits, read here from the right. */
  predicate IsGroupedCount(s: string)
    decreases |s|
  {
    if |s| <= 3 then s != [] && forall i :: 0 <= i < |s| ==> IsDigit(s[i])
    else
      && s[|s| - 4] == ','
      && (forall i :: |s| - 3 <= i < |s| ==> IsDigit(s[i]))
      && IsGroupedCount(s[..|s| - 4])
  }

  /** `n.toString()` has no leading zero unless `n` is 0, and below 1000 at most three digits. */
  lemma {:induction false} DecimalShape(n: nat)
    ensures Decimal(n)[0] == '0' <==> n == 0
    ensures n < 1000 ==> |Decimal(n)| <= 3
  {
    if n >= 10 {
      DecimalShape(n / 10);
      assert Decimal(n)[0] == Decimal(n / 10)[0];
    }
  }

  /** The en-US rendering is grouped by threes from the right, with no leading zero unless
      the count is 0. With FormatCountValue this fixes the text completely. */
  lemma {:induction false} FormatCountGroups(n: nat)
    ensures IsGroupedCount(FormatCount(n))
    ensures FormatCount(n)[0] == '0' <==> n == 0
  {
    if n < 1000 {
      DecimalShape(n);
    } else {
      FormatCountGroups(n / 1000);
      var high, g := FormatCount(n / 1000), Pad3(n % 1000);
      var s := high + "," + g;
      assert FormatCount(n) == s;
      assert s[..|s| - 4] == high && s[|s| - 4] == ',' && s[0] == high[0];
      assert forall i :: |s| - 3 <= i < |s| ==> s[i] == g[i - (|s| - 3)];
    }
  }

  /** A seven-digit count is written in three groups. */
  lemma FormatCountExample()
    ensures FormatCount(1234567) == "1,234,567"
  {
  }

  // ---------------------------------------------------------------------------------------
  // The first-occurrence replacements

  const DateLabel := "**Last updated:** "
  const CompleteLabel := "| **Complete** | "
  const RowEnd := " |"

  /** The two README fields the script patches. */
  datatype StatField = LastUpdated | CompleteRow

  /** The literal text each field's regex starts with. */
  function Label(p: StatField): string
  {
    match p
    case LastUpdated => DateLabel
    case CompleteRow => CompleteLabel
  }

  /** `\d{4}-\d{2}-\d{2}`. */
  predicate IsDateShape(d: string)
  {
    && |d| == 10 && d[4] == '-' && d[7] == '-'
    && forall i :: 0 <= i < 10 && i != 4 && i != 7 ==> IsDigit(d[i])
  }

  /** What follows the label in a match: a date, or a count and the closing ` |`. */
  predicate IsMatchTail(p: StatField, t: string)
  {
    match p
    case LastUpdated => IsDateShape(t)
    case CompleteRow => |t| >= 2 && IsCountText(t[..|t| - 2]) && t[|t| - 2..] == RowEnd
  }

  /** `m` is a whole match of `/\*\*Last updated:\*\* \d{4}-\d{2}-\d{2}/` or of
      `/\| \*\*Complete\*\* \| [\d,]+ \|/`. */
  predicate IsMatch(p: StatField, m: string)
  {
    |Label(p)| <= |m| && m[..|Label(p)|] == Label(p) && IsMatchTail(p, m[|Label(p)|..])
  }

  /** The field's regex matches `s[i..e]`. */
  predicate MatchAt(p: StatField, s: string, i: int, e: int)
  {
    0 <= i <= e <= |s| && IsMatch(p, s[i..e])
  }

  /** No match of the field's regex starts at a position in `[from, to)`. */
  ghost predicate NoMatchBetween(p: StatField, s: string, from: int, to: int)
  {
    forall j, e :: from <= j < to ==> !MatchAt(p, s, j, e)
  }

  /** `s[i..e]` is the match a non-global `replace` picks: no match starts further left. */
  ghost predicate IsFirstMatch(p: StatField, s: string, i: int, e: int)
  {
    MatchAt(p, s, i, e) && NoMatchBetween(p, s, 0, i)
  }

  /** The values the script substitutes: the date `today`, or the formatted count. */
  predicate IsFieldValue(p: StatField, v: string)
  {
    match p
    case LastUpdated => IsDateShape(v)
    case CompleteRow => IsCountText(v)
  }

  /** The replacement text: `**Last updated:** ${today}` or `| **Complete** | ${formattedCount} |`. */
  function Replacement(p: StatField, v: string): string
  {
    match p
    case LastUpdated => DateLabel + v
    case CompleteRow => CompleteLabel + v + RowEnd
  }

  /** A replacement built from a proper value is itself a match of the field's regex. */
  lemma ReplacementMatches(p: StatField, v: string)
    requires IsFieldValue(p, v)
    ensures IsMatch(p, Replacement(p, v))
  {
    var r := Replacement(p, v);
    var l := |Label(p)|;
    assert r[..l] == Label(p);
    if p == CompleteRow {
      var t := r[l..];
      assert t == v + RowEnd;
      assert t[..|t| - 2] == v && t[|t| - 2..] == RowEnd;
    } else {
      assert r[l..] == v;
    }
  }

  /** The end of the run of `[\d,]` characters starting at `j`. */
  function RunEnd(s: string, j: nat): (k: nat)
    requires j <= |s|
    ensures j <= k <= |s|
    ensures forall t :: j <= t < k ==> IsCountChar(s[t])
    ensures k < |s| ==> !IsCountChar(s[k])
    decreases |s| - j
  {
    if j < |s| && IsCountChar(s[j]) then RunEnd(s, j + 1) else j
  }

  /** Where the field's match starting at `i` ends, if one starts there. The date pattern
      has a fixed length; in the count pattern `[\d,]+` takes the whole run, because the
      space that must follow is not in the class. */
  function MatchEndAt(p: StatField, s: string, i: nat): Option<nat>
    requires i <= |s|
  {
    var l := |Label(p)|;
    if i + l <= |s| && s[i..i + l] == Label(p) then
      match p
      case LastUpdated =>
        if i + l + 10 <= |s| && IsDateShape(s[i + l..i + l + 10]) then Some(i + l + 10) else None
      case CompleteRow =>
        var k := RunEnd(s, i + l);
        if k > i + l && k + 2 <= |s| && s[k..k + 2] == RowEnd then Some(k + 2) else None
    else None
  }

  /** A match starting at `i` ends exactly where MatchEndAt says: at most one match starts
      at each position, and the engine finds it. */
  lemma MatchEndAtExact(p: StatField, s: string, i: nat, e: int)
    requires i <= e <= |s|
    ensures IsMatch(p, s[i..e]) <==> MatchEndAt(p, s, i) == Some(e)
  {
    var l := |Label(p)|;
    var m := s[i..e];
    if l <= |m| {
      assert m[..l] == s[i..i + l];
      assert m[l..] == s[i + l..e];
      if p == CompleteRow {
        CountMatchEnd(s, i + l, e);
      }
    }
  }

  /** After the count label, `[\d,]+ \|` matches `s[j..e]` exactly when the run starting
      at `j` is non-empty and followed by ` |` ending at `e`. */
  lemma CountMatchEnd(s: string, j: nat, e: int)
    requires j <= e <= |s|
    ensures IsMatchTail(CompleteRow, s[j..e])
        <==> (var k := RunEnd(s, j); k > j && k + 2 == e && s[k..e] == RowEnd)
  {
    var t := s[j..e];
    if IsMatchTail(CompleteRow, t) {
      var u := s[j..e - 2];
      assert t[..|t| - 2] == u;
      assert forall x :: j <= x < e - 2 ==> s[x] == u[x - j];
      assert t[|t| - 2..] == s[e - 2..e];
      assert s[e - 2] == s[e - 2..e][0] == RowEnd[0];
      RunEndAt(s, j, e - 2);
    }
    var k := RunEnd(s, j);
    if k > j && k + 2 == e && s[k..e] == RowEnd {
      assert t[..|t| - 2] == s[j..k];
      assert t[|t| - 2..] == s[k..e];
    }
  }

  /** The run ends at the first character outside `[\d,]`. */
  lemma RunEndAt(s: string, j: nat, k: nat)
    requires j <= k < |s|
    requires forall t :: j <= t < k ==> IsCountChar(s[t])
    requires !IsCountChar(s[k])
    ensures RunEnd(s, j) == k
  {
  }

  /** The leftmost match at or after `from`, as a non-global `replace` searches for it. */
  function FindFirst(p: StatField, s: string, from: nat): Option<(nat, nat)>
    requires from <= |s|
    decreases |s| - from
  {
    match MatchEndAt(p, s, from)
    case Some(e) => Some((from, e))
    case None => if from == |s| then None else FindFirst(p, s, from + 1)
  }

  /** FindFirst returns the leftmost match at or after `from`, or None when there is none. */
  lemma {:induction false} FindFirstLeftmost(p: StatField, s: string, from: nat)
    requires from <= |s|
    ensures FindFirst(p, s, from).Some? ==>
      var (i, e) := FindFirst(p, s, from).value;
      from <= i && MatchAt(p, s, i, e) && NoMatchBetween(p, s, from, i)
    ensures FindFirst(p, s, from).None? ==> NoMatchBetween(p, s, from, |s| + 1)
    decreases |s| - from
  {
    var r := MatchEndAt(p, s, from);
    if r.Some? {
      MatchEndAtExact(p, s, from, r.value);
      assert FindFirst(p, s, from) == Some((from, r.value));
    } else {
      forall e2 | from <= e2 <= |s|
        ensures !IsMatch(p, s[from..e2])
      {
        MatchEndAtExact(p, s, from, e2);
      }
      if from < |s| {
        FindFirstLeftmost(p, s, from + 1);
        assert FindFirst(p, s, from) == FindFirst(p, s, from + 1);
      } else {
        assert FindFirst(p, s, from) == None;
      }
    }
  }

  /** `s.replace(regex, rep)` for a non-global regex: the first match, if any, replaced.
      FindFirstLeftmost supplies the bounds of the match for the slices. */
  function ReplaceFirst(p: StatField, s: string, rep: string): string
  {
    FindFirstLeftmost(p, s, 0);
    match FindFirst(p, s, 0)
    case None => s
    case Some((i, e)) => s[..i] + rep + s[e..]
  }

  /** Without a match the text is unchanged; otherwise exactly the first match is replaced
      and everything before and after it is kept. */
  lemma ReplaceFirstSpec(p: StatField, s: string, rep: string)
    ensures NoMatchBetween(p, s, 0, |s| + 1) ==> ReplaceFirst(p, s, rep) == s
    ensures forall i, e :: IsFirstMatch(p, s, i, e) ==> ReplaceFirst(p, s, rep) == s[..i] + rep + s[e..]
  {
    FindFirstLeftmost(p, s, 0);
    forall i, e | IsFirstMatch(p, s, i, e)
      ensures ReplaceFirst(p, s, rep) == s[..i] + rep + s[e..]
    {
      var i2, e2 := FindFirst(p, s, 0).value.0, FindFirst(p, s, 0).value.1;
      assert i2 == i;
      MatchEndAtExact(p, s, i, e);
      MatchEndAtExact(p, s, i, e2);
    }
  }

  /** A match cannot hold its own label again at a later offset that leaves the label inside
      it: the date's `**L` and the count row's `| **` do not recur within a match. */
  lemma NoLabelInside(p: StatField, m: string, k: int)
    requires IsMatch(p, m) && 1 <= k && k + |Label(p)| <= |m|
    ensures m[k..k + |Label(p)|] != Label(p)
  {
    var l := |Label(p)|;
    if p == CompleteRow {
      var c := m[l..][..|m| - l - 2];
      assert forall x :: l <= x < |m| - 2 ==> m[x] == c[x - l];
      if k < l {
        assert m[k] != '|' || m[k + 2] != '*';
      } else {
        assert m[k] != '|';
      }
      assert m[k..k + l][0] == m[k] && m[k..k + l][2] == m[k + 2];
    } else {
      assert m[k] != '*' || m[k + 1] != '*';
      assert m[k..k + l][0] == m[k] && m[k..k + l][1] == m[k + 1];
    }
  }

  /** Replacing the first match by another match creates no match further left: one that
      ends inside the kept label was already in the original text, and one that reaches
      past it would hold the label at a later offset. */
  lemma ReplacedHasNoEarlierMatch(p: StatField, s: string, i: int, e: int, rep: string, j: int, e2: int)
    requires IsFirstMatch(p, s, i, e) && IsMatch(p, rep) && 0 <= j < i
    ensures !MatchAt(p, s[..i] + rep + s[e..], j, e2)
  {
    var t := s[..i] + rep + s[e..];
    var l := |Label(p)|;
    SpliceKeepsPrefix(s, i, e, rep, l);
    if j <= e2 <= |t| {
      if e2 <= i + l {
        SliceOfPrefix(t, s, i + l, j, e2);
        assert !MatchAt(p, s, j, e2);
      } else if IsMatch(p, t[j..e2]) {
        LabelInsideLongMatch(p, t, i, j, e2);
      }
    }
  }

  /** Texts that agree up to `n` agree on every slice that ends by `n`. */
  lemma SliceOfPrefix<T>(t: seq<T>, s: seq<T>, n: int, j: int, e: int)
    requires 0 <= j <= e <= n <= |t| && n <= |s| && t[..n] == s[..n]
    ensures t[j..e] == s[j..e]
  {
    assert t[j..e] == t[..n][j..e];
    assert s[j..e] == s[..n][j..e];
  }

  /** A match starting before `i` cannot reach past the label at `i`. */
  lemma LabelInsideLongMatch(p: StatField, t: string, i: int, j: int, e2: int)
    requires 0 <= j < i && i + |Label(p)| < e2 <= |t| && t[i..i + |Label(p)|] == Label(p)
    ensures !IsMatch(p, t[j..e2])
  {
    var l := |Label(p)|;
    var m := t[j..e2];
    assert forall x :: i - j <= x < i - j + l ==> m[x] == t[j + x];
    assert m[i - j..i - j + l] == t[i..i + l];
    if IsMatch(p, m) {
      NoLabelInside(p, m, i - j);
    }
  }

  /** Replacing `s[i..e]` by a text that starts like it keeps that common start. */
  lemma SpliceKeepsPrefix<T>(s: seq<T>, i: int, e: int, rep: seq<T>, n: int)
    requires 0 <= i <= e <= |s| && 0 <= n <= |rep| && i + n <= e && rep[..n] == s[i..i + n]
    ensures (s[..i] + rep + s[e..])[..i + n] == s[..i + n]
    ensures (s[..i] + rep + s[e..])[i..i + n] == s[i..i + n]
  {
    var t := s[..i] + rep + s[e..];
    assert forall x :: 0 <= x < i + n ==> t[x] == s[x] by {
      forall x | 0 <= x < i + n
        ensures t[x] == s[x]
      {
        if x >= i {
          assert t[x] == rep[x - i] == rep[..n][x - i] == s[i..i + n][x - i];
        }
      }
    }
  }

  /** After a patch with a proper value the field's first match is the replacement itself,
      at the position where the old first match started. */
  lemma ReplacementBecomesFirstMatch(p: StatField, s: string, v: string, i: int, e: int)
    requires IsFieldValue(p, v) && IsFirstMatch(p, s, i, e)
    ensures var rep := Replacement(p, v);
      IsFirstMatch(p, ReplaceFirst(p, s, rep), i, i + |rep|)
  {
    var rep := Replacement(p, v);
    ReplacementMatches(p, v);
    ReplaceFirstSpec(p, s, rep);
    var t := s[..i] + rep + s[e..];
    assert t[i..i + |rep|] == rep;
    forall j, e2 | 0 <= j < i
      ensures !MatchAt(p, t, j, e2)
    {
      ReplacedHasNoEarlierMatch(p, s, i, e, rep, j, e2);
    }
  }

  /** Re-applying a replacement with the same date or count changes nothing. */
  lemma ReplaceFirstIdempotent(p: StatField, s: string, v: string)
    requires IsFieldValue(p, v)
    ensures var rep := Replacement(p, v);
      ReplaceFirst(p, ReplaceFirst(p, s, rep), rep) == ReplaceFirst(p, s, rep)
  {
    var rep := Replacement(p, v);
    FindFirstLeftmost(p, s, 0);
    if FindFirst(p, s, 0).Some? {
      var (i, e) := FindFirst(p, s, 0).value;
      var t := s[..i] + rep + s[e..];
      ReplacementBecomesFirstMatch(p, s, v, i, e);
      assert ReplaceFirst(p, s, rep) == t;
      ReplaceFirstSpec(p, t, rep);
      assert t[..i] == s[..i] && t[i + |rep|..] == s[e..];
    }
  }

  /** `updateReadme` without its file reads and writes: the date is always patched; the
      count is patched only when the browser list could be read (`browserList` is None when
      reading it failed, and the script then skips the statistics). */
  method UpdateReadme(readme: string, today: string, browserList: Option<string>)
    returns (updated: string)
    ensures var dated := ReplaceFirst(LastUpdated, readme, Replacement(LastUpdated, today));
      && (browserList.None? ==> updated == dated)
      && (browserList.Some? ==>
            var formattedCount := FormatCount(CountRules(Split(browserList.value)));
            updated == ReplaceFirst(CompleteRow, dated, Replacement(CompleteRow, formattedCount)))
  {
    updated := ReplaceFirst(LastUpdated, readme, Replacement(LastUpdated, today));
    if browserList.Some? {
      var totalRules := CountRules(Split(browserList.value));
      var formattedCount := FormatCount(totalRules);
      updated := ReplaceFirst(CompleteRow, updated, Replacement(CompleteRow, formattedCount));
    }
  }
}
