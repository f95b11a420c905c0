/**
  The few Python `str` operations the scripts rely on, written out with the
  semantics CPython gives them: `split`, `strip`, iteration over the lines of
  a text file, `<` on strings and the size of the UTF-8 encoding.
 */
module PyStr {
  import opened Seqs

  /** Index of the first `c` in `s`, or `|s|` when there is none. */
  function IndexOf(s: string, c: char): (i: nat)
    ensures i <= |s|
    ensures i < |s| ==> s[i] == c
    ensures i == |s| <==> c !in s
  {
    if s == [] then 0 else if s[0] == c then 0 else 1 + IndexOf(s[1..], c)
  }

  /** No `c` comes before the index `IndexOf` finds. */
  lemma {:induction false} IndexOfFirst(s: string, c: char)
    ensures forall j :: 0 <= j < IndexOf(s, c) ==> s[j] != c
  {
    if s != [] && s[0] != c {
      IndexOfFirst(s[1..], c);
      assert forall j :: 1 <= j < IndexOf(s, c) ==> s[j] == s[1..][j - 1];
    }
  }

  /** `s.split(sep)` for a one-character separator. */
  function Split(s: string, sep: char): (parts: seq<string>)
    ensures |parts| >= 1
    decreases |s|
  {
    var i := IndexOf(s, sep);
    if i == |s| then [s] else [s[..i]] + Split(s[i + 1..], sep)
  }

  lemma SplitNoSep(s: string, sep: char)
    requires sep !in s
    ensures Split(s, sep) == [s]
  {
  }

  lemma SplitJoin(a: string, sep: char, b: string)
    requires sep !in a
    ensures Split(a + [sep] + b, sep) == [a] + Split(b, sep)
  {
    var s := a + [sep] + b;
    assert IndexOf(s, sep) == |a| by {
      IndexOfFirst(s, sep);
      assert s[|a|] == sep;
      assert forall j :: 0 <= j < |a| ==> s[j] == a[j];
    }
    assert s[..|a|] == a;
    assert s[|a| + 1..] == b;
  }

  lemma SplitAt(s: string, sep: char)
    requires sep in s
    ensures Split(s, sep) == [s[..IndexOf(s, sep)]] + Split(s[IndexOf(s, sep) + 1..], sep)
  {
  }

  lemma IndexOfPrefix(a: string, sep: char, b: string)
    requires sep in a
    ensures IndexOf(a + b, sep) == IndexOf(a, sep)
  {
    var i := IndexOf(a, sep);
    IndexOfFirst(a, sep);
    IndexOfFirst(a + b, sep);
    assert forall j :: 0 <= j <= i ==> (a + b)[j] == a[j];
  }

  lemma {:induction false} SplitJoinLast(a: string, sep: char, b: string)
    requires sep !in b
    ensures Split(a + [sep] + b, sep) == Split(a, sep) + [b]
    decreases |a|
  {
    var s := a + [sep] + b;
    if sep !in a {
      SplitJoin(a, sep, b);
      SplitNoSep(b, sep);
    } else {
      var i := IndexOf(a, sep);
      var rest := a[i + 1..];
      assert Split(s, sep) == [a[..i]] + Split(rest + [sep] + b, sep) by {
        IndexOfPrefix(a, sep, [sep] + b);
        assert s == a + ([sep] + b);
        assert s[..i] == a[..i];
        assert s[i + 1..] == rest + [sep] + b;
        SplitAt(s, sep);
      }
      assert Split(a, sep) == [a[..i]] + Split(rest, sep) by {
        SplitAt(a, sep);
      }
      SplitJoinLast(rest, sep, b);
      ConsSnoc(a[..i], Split(rest, sep), b);
    }
  }

  /** `s.split(sep)[0]`: the text before the first `sep`. */
  function BeforeFirst(s: string, sep: char): (r: string)
    ensures r == Split(s, sep)[0]
    ensures sep !in r && r <= s
  {
    IndexOfFirst(s, sep);
    s[..IndexOf(s, sep)]
  }

  /** `s.split(sep, 1)`: at most two parts, cut at the first `sep`. */
  function SplitOnce(s: string, sep: char): (parts: seq<string>)
    ensures 1 <= |parts| <= 2
    ensures |parts| == 1 <==> sep !in s
    ensures |parts| == 1 ==> parts[0] == s
    ensures |parts| == 2 ==> parts[0] + [sep] + parts[1] == s && sep !in parts[0]
  {
    var i := IndexOf(s, sep);
    IndexOfFirst(s, sep);
    if i == |s| then [s] else [s[..i], s[i + 1..]]
  }

  /** The characters for which Python's `str.isspace()` holds. */
  predicate IsSpace(c: char)
  {
    c == ' ' || ('\t' <= c <= '\r') || ('\U{1C}' <= c <= '\U{1F}') || c == '\U{85}' || c == '\U{A0}'
    || c == '\U{1680}' || ('\U{2000}' <= c <= '\U{200A}') || c == '\U{2028}' || c == '\U{2029}'
    || c == '\U{202F}' || c == '\U{205F}' || c == '\U{3000}'
  }

  /** `s.lstrip(...)` for a character class given as a predicate on characters. */
  function LStrip(s: string, strip: char -> bool): (r: string)
    ensures |r| <= |s| && r == s[|s| - |r|..]
    ensures r == [] || !strip(r[0])
    ensures forall i :: 0 <= i < |s| - |r| ==> strip(s[i])
  {
    if s != [] && strip(s[0]) then
      var r := LStrip(s[1..], strip);
      assert s[1..][|s| - 1 - |r|..] == s[|s| - |r|..];
      assert forall i :: 1 <= i < |s| - |r| ==> s[i] == s[1..][i - 1];
      r
    else s
  }

  /** `s.rstrip(...)` for a character class given as a predicate on characters. */
  function RStrip(s: string, strip: char -> bool): (r: string)
    ensures |r| <= |s| && r == s[..|r|]
    ensures r == [] || !strip(r[|r| - 1])
    ensures forall i :: |r| <= i < |s| ==> strip(s[i])
  {
    if s != [] && strip(s[|s| - 1]) then RStrip(s[..|s| - 1], strip) else s
  }

  /** `s.strip()`: whitespace removed at both ends. */
  function Strip(s: string): string
  {
    RStrip(LStrip(s, IsSpace), IsSpace)
  }

  /** Whitespace only. */
  predicate AllSpace(w: string)
  {
    forall k :: 0 <= k < |w| ==> IsSpace(w[k])
  }

  /** `r` is `s` with nothing but whitespace cut from each end. */
  predicate Trims(s: string, r: string)
  {
    exists j :: 0 <= j <= |s| - |r| && s[j..j + |r|] == r && AllSpace(s[..j]) && AllSpace(s[j + |r|..])
  }

  /** `s.strip()` cuts only whitespace, from the ends. */
  lemma StripTrims(s: string)
    ensures Trims(s, Strip(s))
  {
    var l := LStrip(s, IsSpace);
    var r := RStrip(l, IsSpace);
    var j := |s| - |l|;
    assert s[j..j + |r|] == r by {
      assert l == s[j..];
      assert r == l[..|r|];
    }
    var head := s[..j];
    assert AllSpace(head) by {
      forall k | 0 <= k < |head|
        ensures IsSpace(head[k])
      {
        assert head[k] == s[k];
      }
    }
    var tail := s[j + |r|..];
    assert AllSpace(tail) by {
      forall k | 0 <= k < |tail|
        ensures IsSpace(tail[k])
      {
        assert tail[k] == l[|r| + k];
      }
    }
    TrimsAt(s, r, j);
  }

  lemma TrimsAt(s: string, r: string, j: nat)
    requires j <= |s| - |r| && s[j..j + |r|] == r && AllSpace(s[..j]) && AllSpace(s[j + |r|..])
    ensures Trims(s, r)
  {
  }

  /** A text whose ends are not whitespace is the only trimming of `s` that `Trims` allows. */
  lemma TrimsUnique(s: string, r1: string, r2: string)
    requires Trims(s, r1) && (r1 == [] || (!IsSpace(r1[0]) && !IsSpace(r1[|r1| - 1])))
    requires Trims(s, r2) && (r2 == [] || (!IsSpace(r2[0]) && !IsSpace(r2[|r2| - 1])))
    ensures r1 == r2
  {
    var j1 :| 0 <= j1 <= |s| - |r1| && s[j1..j1 + |r1|] == r1 && AllSpace(s[..j1]) && AllSpace(s[j1 + |r1|..]);
    var j2 :| 0 <= j2 <= |s| - |r2| && s[j2..j2 + |r2|] == r2 && AllSpace(s[..j2]) && AllSpace(s[j2 + |r2|..]);
    if r2 != [] {
      TrimsEnds(s, r1, j1, r2, j2);
    } else if r1 != [] {
      TrimsEnds(s, r2, j2, r1, j1);
    }
  }

  lemma TrimsEnds(s: string, r1: string, j1: nat, r2: string, j2: nat)
    requires j1 <= |s| - |r1| && s[j1..j1 + |r1|] == r1 && AllSpace(s[..j1]) && AllSpace(s[j1 + |r1|..])
    requires j2 <= |s| - |r2| && s[j2..j2 + |r2|] == r2 && AllSpace(s[..j2]) && AllSpace(s[j2 + |r2|..])
    requires r2 != [] && !IsSpace(r2[0]) && !IsSpace(r2[|r2| - 1])
    requires r1 == [] || (!IsSpace(r1[0]) && !IsSpace(r1[|r1| - 1]))
    ensures r1 == r2
  {
    assert s[j2] == r2[0];
    assert s[j2 + |r2| - 1] == r2[|r2| - 1];
    if r1 == [] {
      assert false;
    } else {
      assert s[j1] == r1[0];
      assert s[j1 + |r1| - 1] == r1[|r1| - 1];
    }
  }

  predicate IsHashOrSpace(c: char) { c == '#' || c == ' ' }

  /** `s.strip("# ")`. */
  function StripHashSpace(s: string): string
  {
    RStrip(LStrip(s, IsHashOrSpace), IsHashOrSpace)
  }

  lemma LStripNone(s: string, strip: char -> bool)
    requires s == [] || !strip(s[0])
    ensures LStrip(s, strip) == s
  {
  }

  lemma RStripNone(s: string, strip: char -> bool)
    requires s == [] || !strip(s[|s| - 1])
    ensures RStrip(s, strip) == s
  {
  }

  /**
    Reading a text file in Python's universal-newline mode turns `\r\n` and
    `\r` into `\n`: the same text as `t.replace("\r\n", "\n").replace("\r", "\n")`.
   */
  function UniversalNewlines(t: string): (r: string)
    ensures '\r' !in r
    ensures r == CrToLf(ReplaceCrLf(t))
  {
    if t == [] then []
    else if t[0] == '\r' then
      if |t| > 1 && t[1] == '\n' then
        var r := "\n" + UniversalNewlines(t[2..]);
        CrToLfCons('\n', ReplaceCrLf(t[2..]));
        r
      else
        var r := "\n" + UniversalNewlines(t[1..]);
        CrToLfCons('\r', ReplaceCrLf(t[1..]));
        r
    else
      var r := [t[0]] + UniversalNewlines(t[1..]);
      CrToLfCons(t[0], ReplaceCrLf(t[1..]));
      r
  }

  /** `s.replace("\r\n", "\n")`: each `\r\n`, found left to right, becomes one `\n`. */
  function ReplaceCrLf(s: string): string
  {
    if s == [] then []
    else if |s| > 1 && s[0] == '\r' && s[1] == '\n' then "\n" + ReplaceCrLf(s[2..])
    else [s[0]] + ReplaceCrLf(s[1..])
  }

  /** `s.replace("\r", "\n")`. */
  function CrToLf(s: string): string
  {
    seq(|s|, i requires 0 <= i < |s| => if s[i] == '\r' then '\n' else s[i])
  }

  lemma CrToLfCons(c: char, s: string)
    ensures CrToLf([c] + s) == [if c == '\r' then '\n' else c] + CrToLf(s)
  {
  }

  lemma {:induction false} UniversalNewlinesNoCr(t: string)
    requires '\r' !in t
    ensures UniversalNewlines(t) == t
  {
    if t != [] {
      UniversalNewlinesNoCr(t[1..]);
    }
  }

  /** `"".join(parts)`. */
  function Concat(parts: seq<string>): string
  {
    if parts == [] then [] else parts[0] + Concat(parts[1..])
  }

  /**
    `lines` is `t` cut after each `\n`: non-empty pieces that join back to
    `t`, with a `\n` at the end of every piece but the last and nowhere else.
   */
  predicate LinesOf(t: string, lines: seq<string>)
  {
    Concat(lines) == t
    && (forall i :: 0 <= i < |lines| ==> lines[i] != [] && '\n' !in lines[i][..|lines[i]| - 1])
    && (forall i :: 0 <= i < |lines| - 1 ==> lines[i][|lines[i]| - 1] == '\n')
  }

  /** Cuts text into lines, each keeping its terminating `\n` (the last may lack one). */
  function SplitLinesKeepEnds(t: string): (lines: seq<string>)
    ensures LinesOf(t, lines)
    decreases |t|
  {
    if t == [] then []
    else
      var i := IndexOf(t, '\n');
      IndexOfFirst(t, '\n');
      if i == |t| then
        LinesOfLast(t);
        [t]
      else
        var rest := SplitLinesKeepEnds(t[i + 1..]);
        assert t[..i + 1][..i] == t[..i];
        LinesOfCons(t[..i + 1], t[i + 1..], rest);
        assert t[..i + 1] + t[i + 1..] == t;
        [t[..i + 1]] + rest
  }

  /** Each line of a file is non-empty and holds `\n` at most as its last character. */
  lemma FileLineShape(text: string)
    ensures forall i :: 0 <= i < |FileLines(text)| ==>
      FileLines(text)[i] != [] && '\n' !in FileLines(text)[i][..|FileLines(text)[i]| - 1]
  {
  }

  lemma LinesOfLast(t: string)
    requires t != [] && '\n' !in t
    ensures LinesOf(t, [t])
  {
    assert Concat([t]) == t + Concat([]);
  }

  lemma LinesOfCons(line: string, t: string, rest: seq<string>)
    requires line != [] && line[|line| - 1] == '\n' && '\n' !in line[..|line| - 1]
    requires LinesOf(t, rest)
    ensures LinesOf(line + t, [line] + rest)
  {
    assert ([line] + rest)[1..] == rest;
  }

  /** Those properties determine the lines: any such cutting of `t` is the one above. */
  lemma {:induction false} SplitLinesUnique(t: string, lines: seq<string>)
    requires LinesOf(t, lines)
    ensures lines == SplitLinesKeepEnds(t)
    decreases |lines|
  {
    if lines != [] {
      var line, rest := lines[0], lines[1..];
      assert t == line + Concat(rest);
      if rest == [] {
        LastLine(t, line);
      } else {
        LinesOfTail(t, lines);
        SplitLinesUnique(Concat(rest), rest);
        SplitLinesCons(line, Concat(rest));
      }
    }
  }

  lemma LastLine(t: string, line: string)
    requires t == line && line != [] && '\n' !in line[..|line| - 1]
    ensures [line] == SplitLinesKeepEnds(t)
  {
    if line[|line| - 1] == '\n' {
      SplitLinesCons(line, []);
      assert line + [] == line;
    } else {
      assert '\n' !in line by {
        assert forall j :: 0 <= j < |line| - 1 ==> line[j] == line[..|line| - 1][j];
      }
      assert IndexOf(t, '\n') == |t|;
    }
  }

  lemma LinesOfTail(t: string, lines: seq<string>)
    requires LinesOf(t, lines) && |lines| >= 2
    ensures LinesOf(Concat(lines[1..]), lines[1..])
    ensures lines[0][|lines[0]| - 1] == '\n' && lines[0] != [] && '\n' !in lines[0][..|lines[0]| - 1]
  {
    var rest := lines[1..];
    assert forall i :: 0 <= i < |rest| ==> rest[i] == lines[i + 1];
  }

  /** The strings `for line in file` yields for a file whose decoded text is `text`. */
  function FileLines(text: string): seq<string>
  {
    SplitLinesKeepEnds(UniversalNewlines(text))
  }

  lemma SplitLinesCons(line: string, rest: string)
    requires |line| >= 1 && line[|line| - 1] == '\n' && '\n' !in line[..|line| - 1]
    ensures SplitLinesKeepEnds(line + rest) == [line] + SplitLinesKeepEnds(rest)
  {
    var t := line + rest;
    assert IndexOf(t, '\n') == |line| - 1 by {
      IndexOfFirst(t, '\n');
      assert t[|line| - 1] == '\n';
      assert forall j :: 0 <= j < |line| - 1 ==> t[j] == line[..|line| - 1][j];
    }
    assert t[..|line|] == line;
    assert t[|line|..] == rest;
  }

  /** `s.strip()` leaves no whitespace at either end. */
  lemma StripTrimmed(s: string)
    ensures Strip(s) == [] || (!IsSpace(Strip(s)[0]) && !IsSpace(Strip(s)[|Strip(s)| - 1]))
  {
    var l := LStrip(s, IsSpace);
    var r := RStrip(l, IsSpace);
    if r != [] {
      assert r[0] == l[0];
    }
  }

  /** Stripping a line whose only `\n` is its last character leaves no `\n`. */
  lemma StripLine(line: string)
    requires line != [] && '\n' !in line[..|line| - 1]
    ensures '\n' !in Strip(line)
  {
    var l := LStrip(line, IsSpace);
    var r := RStrip(l, IsSpace);
    var k := |line| - |l|;
    forall j | 0 <= j < |r|
      ensures r[j] != '\n'
    {
      assert r[j] == line[k + j];
      if k + j < |line| - 1 {
        assert line[..|line| - 1][k + j] == line[k + j];
      } else {
        assert j == |r| - 1;
      }
    }
  }

  /** Python's `a < b` on strings: lexicographic by code point. */
  predicate StrLt(a: string, b: string)
  {
    if a == [] then b != []
    else if b == [] then false
    else if a[0] != b[0] then a[0] < b[0]
    else StrLt(a[1..], b[1..])
  }

  lemma {:induction false} StrLtIrreflexive(a: string)
    ensures !StrLt(a, a)
  {
    if a != [] {
      StrLtIrreflexive(a[1..]);
    }
  }

  lemma {:induction false} StrLtTransitive(a: string, b: string, c: string)
    requires StrLt(a, b) && StrLt(b, c)
    ensures StrLt(a, c)
  {
    if a != [] && b != [] && c != [] && a[0] == b[0] && b[0] == c[0] {
      StrLtTransitive(a[1..], b[1..], c[1..]);
    }
  }

  lemma {:induction false} StrLtTotal(a: string, b: string)
    requires a != b
    ensures StrLt(a, b) || StrLt(b, a)
  {
    if a != [] && b != [] && a[0] == b[0] {
      assert a == [a[0]] + a[1..] && b == [b[0]] + b[1..];
      StrLtTotal(a[1..], b[1..]);
    }
  }

  /** Number of bytes UTF-8 needs for one character. */
  function Utf8Width(c: char): (w: nat)
    ensures 1 <= w <= 4
  {
    if c as int < 0x80 then 1 else if c as int < 0x800 then 2 else if c as int < 0x1_0000 then 3 else 4
  }

  /** Size in bytes of `s` once encoded as UTF-8. */
  function Utf8Size(s: string): (n: nat)
    ensures |s| <= n <= 4 * |s|
  {
    if s == [] then 0 else Utf8Size(s[..|s| - 1]) + Utf8Width(s[|s| - 1])
  }

  /** An ASCII text takes one byte per character. */
  lemma {:induction false} Utf8SizeAscii(s: string)
    requires forall i :: 0 <= i < |s| ==> s[i] as int < 0x80
    ensures Utf8Size(s) == |s|
  {
    if s != [] {
      Utf8SizeAscii(s[..|s| - 1]);
    }
  }
}
