/** Line-oriented text as the update script handles it: `String.prototype.split('\n')`,
    `Array.prototype.join('\n')`, `startsWith` and `trim`. A string is a `seq<char>`. */
module Text {

  /** The code points ECMAScript's `String.prototype.trim` strips: the WhiteSpace
      production (TAB, VT, FF, SP, NBSP, ZWNBSP and every Zs character) and the
      LineTerminator production (LF, CR, LS, PS). */
  predicate IsJsWhitespace(c: char)
  {
    c == '\t' || c == '\n' || c == '\U{000B}' || c == '\U{000C}' || c == '\r' ||
    c == ' ' || c == '\U{00A0}' || c == '\U{1680}' || ('\U{2000}' <= c <= '\U{200A}') ||
    c == '\U{2028}' || c == '\U{2029}' || c == '\U{202F}' || c == '\U{205F}' ||
    c == '\U{3000}' || c == '\U{FEFF}'
  }

  predicate AllWhitespace(s: string)
  {
    forall i :: 0 <= i < |s| ==> IsJsWhitespace(s[i])
  }

  function TrimStart(s: string): string
  {
    if s != [] && IsJsWhitespace(s[0]) then TrimStart(s[1..]) else s
  }

  function TrimEnd(s: string): string
  {
    if s != [] && IsJsWhitespace(s[|s| - 1]) then TrimEnd(s[..|s| - 1]) else s
  }

  /** `s.trim()`: both ends stripped of JavaScript whitespace. */
  function Trim(s: string): string
  {
    TrimEnd(TrimStart(s))
  }

  /** `trimStart` leaves a suffix of `s`, removes only whitespace, and what is left does not
      start with whitespace. */
  lemma {:induction false} TrimStartSpec(s: string)
    ensures var r := TrimStart(s);
      && |r| <= |s| && r == s[|s| - |r|..] && AllWhitespace(s[..|s| - |r|])
      && (r != [] ==> !IsJsWhitespace(r[0]))
  {
    if s != [] && IsJsWhitespace(s[0]) {
      TrimStartSpec(s[1..]);
      var r := TrimStart(s[1..]);
      assert s[..|s| - |r|] == [s[0]] + s[1..][..|s| - 1 - |r|];
    }
  }

  /** `trimEnd` leaves a prefix of `s`, removes only whitespace, and what is left does not
      end with whitespace. */
  lemma {:induction false} TrimEndSpec(s: string)
    ensures var r := TrimEnd(s);
      && |r| <= |s| && r == s[..|r|] && AllWhitespace(s[|r|..])
      && (r != [] ==> !IsJsWhitespace(r[|r| - 1]))
  {
    if s != [] && IsJsWhitespace(s[|s| - 1]) {
      TrimEndSpec(s[..|s| - 1]);
      var r := TrimEnd(s[..|s| - 1]);
      assert s[|r|..] == s[..|s| - 1][|r|..] + [s[|s| - 1]];
    }
  }

  /** `s.trim()` is the slice `s[i..j]` left when the whitespace before `i` and after `j` is
      removed, and it neither starts nor ends with whitespace. */
  lemma TrimSpec(s: string)
    ensures var t := Trim(s); var i := |s| - |TrimStart(s)|;
      && 0 <= i && i + |t| <= |s| && t == s[i..i + |t|]
      && AllWhitespace(s[..i]) && AllWhitespace(s[i + |t|..])
      && (t != [] ==> !IsJsWhitespace(t[0]) && !IsJsWhitespace(t[|t| - 1]))
  {
    var u := TrimStart(s);
    TrimStartSpec(s);
    TrimEndSpec(u);
    var t := Trim(s);
    var i := |s| - |u|;
    assert s[i + |t|..] == u[|t|..];
  }

  /** Stripping the front empties a string exactly when it is all whitespace; otherwise
      what is left starts with a character that is not whitespace. */
  lemma {:induction false} TrimStartEmpty(s: string)
    ensures TrimStart(s) == [] <==> AllWhitespace(s)
    ensures TrimStart(s) != [] ==> !IsJsWhitespace(TrimStart(s)[0])
  {
    if s != [] && IsJsWhitespace(s[0]) {
      TrimStartEmpty(s[1..]);
      assert AllWhitespace(s) <==> AllWhitespace(s[1..]) by {
        assert forall i :: 0 <= i < |s| - 1 ==> s[1..][i] == s[i + 1];
      }
    }
  }

  /** Stripping the back never removes a first character that is not whitespace. */
  lemma {:induction false} TrimEndKeepsFirst(t: string)
    requires t != [] && !IsJsWhitespace(t[0])
    ensures TrimEnd(t) != []
  {
    if IsJsWhitespace(t[|t| - 1]) {
      assert |t| >= 2;
      TrimEndKeepsFirst(t[..|t| - 1]);
    }
  }

  /** `s.trim() === ''` holds exactly when every character of `s` is whitespace. */
  lemma TrimEmptyIffAllWhitespace(s: string)
    ensures Trim(s) == [] <==> AllWhitespace(s)
  {
    TrimStartEmpty(s);
    if !AllWhitespace(s) {
      TrimEndKeepsFirst(TrimStart(s));
    }
  }

  /** `s.startsWith(p)`. */
  predicate StartsWith(s: string, p: string)
  {
    p <= s
  }

  /** `content.split('\n')`: the pieces between newlines, in order. JavaScript returns one
      piece more than there are newlines, so the empty string splits into `[""]` and a
      trailing newline yields a trailing empty piece. */
  function Split(s: string): (lines: seq<string>)
    ensures |lines| >= 1
    ensures forall l :: l in lines ==> '\n' !in l
  {
    if s == [] then [[]]
    else
      var rest := Split(s[1..]);
      if s[0] == '\n' then [[]] + rest
      else [[s[0]] + rest[0]] + rest[1..]
  }

  /** `lines.join('\n')`: no newline before the first or after the last line. */
  function Join(lines: seq<string>): string
  {
    if |lines| == 0 then []
    else if |lines| == 1 then lines[0]
    else lines[0] + "\n" + Join(lines[1..])
  }

  predicate NoNewlines(lines: seq<string>)
  {
    forall i :: 0 <= i < |lines| ==> '\n' !in lines[i]
  }

  /** Joining the pieces of a split gives back the text. */
  lemma {:induction false} JoinSplit(s: string)
    ensures Join(Split(s)) == s
  {
    if s != [] {
      JoinSplit(s[1..]);
      var rest := Split(s[1..]);
      assert s == [s[0]] + s[1..];
      if s[0] == '\n' {
        JoinAfterNewline(rest);
      } else {
        JoinAfterChar(s[0], rest);
      }
    }
  }

  /** A newline piece put in front of a split re-joins to a leading newline. */
  lemma JoinAfterNewline(rest: seq<string>)
    requires |rest| >= 1
    ensures Join([[]] + rest) == "\n" + Join(rest)
  {
    assert ([[]] + rest)[1..] == rest;
  }

  /** A character glued to the first piece of a split re-joins in front of the text. */
  lemma JoinAfterChar(c: char, rest: seq<string>)
    requires |rest| >= 1
    ensures Join([[c] + rest[0]] + rest[1..]) == [c] + Join(rest)
  {
    if |rest| == 1 {
      assert [[c] + rest[0]] + rest[1..] == [[c] + rest[0]];
    } else {
      var x, tail := rest[0], rest[1..];
      assert rest == [x] + tail;
      JoinCons([c] + x, tail);
      JoinCons(x, tail);
      AppendAssociates4([c], x, "\n", Join(tail));
    }
  }

  /** Joining a line in front of at least one more line puts a newline between. */
  lemma JoinCons(x: string, ys: seq<string>)
    requires |ys| >= 1
    ensures Join([x] + ys) == x + "\n" + Join(ys)
  {
    assert ([x] + ys)[1..] == ys;
  }

  /** Splitting text that starts with a newline-free piece `a`: the first line begins with `a`. */
  lemma {:induction false} SplitAfterPiece(a: string, t: string)
    requires '\n' !in a
    ensures Split(a + t) == [a + Split(t)[0]] + Split(t)[1..]
  {
    if a != [] {
      assert (a + t)[0] == a[0] && a[0] != '\n';
      assert (a + t)[1..] == a[1..] + t;
      SplitAfterPiece(a[1..], t);
      var r := Split(a[1..] + t);
      assert r[0] == a[1..] + Split(t)[0];
      assert r[1..] == Split(t)[1..];
      assert Split(a + t) == [[a[0]] + r[0]] + r[1..];
      assert [a[0]] + (a[1..] + Split(t)[0]) == a + Split(t)[0];
    } else {
      assert a + t == t && a + Split(t)[0] == Split(t)[0];
      assert Split(t) == [Split(t)[0]] + Split(t)[1..];
    }
  }

  /** Splitting joined newline-free lines gives back the lines. */
  lemma {:induction false} SplitJoin(lines: seq<string>)
    requires |lines| >= 1 && NoNewlines(lines)
    ensures Split(Join(lines)) == lines
  {
    if |lines| == 1 {
      SplitAfterPiece(lines[0], []);
      assert lines[0] + [] == lines[0];
      assert Join(lines) == lines[0];
    } else {
      var rest := lines[1..];
      SplitJoin(rest);
      var t := "\n" + Join(rest);
      assert Join(lines) == lines[0] + t;
      SplitAfterPiece(lines[0], t);
      assert t[0] == '\n' && t[1..] == Join(rest);
      assert Split(t) == [[]] + rest;
      assert Split(t)[0] == [] && Split(t)[1..] == rest;
      assert lines[0] + [] == lines[0];
      assert lines == [lines[0]] + rest;
    }
  }

  lemma AppendAssociates<T>(a: seq<T>, b: seq<T>, c: seq<T>)
    ensures (a + b) + c == a + (b + c)
  {
  }

  lemma AppendAssociates4<T>(a: seq<T>, b: seq<T>, c: seq<T>, d: seq<T>)
    ensures a + b + c + d == a + (b + c + d)
  {
  }
}
