/**
  The output file: one line per dict item, `entry # comment` or just `entry`,
  with the comment cut to a configured length (`write_to_output_file`,
  `write_entries_to_file`), and the loader that reads such a file back into a
  dict (`load_existing_output_file_entries`, `load_existing_output_file`).
  A file is modelled by its decoded text; a missing file by `None`.
 */
module OutputFile {
  import opened Wrappers
  import opened PyStr
  import opened OrderedDict

  /** `s[:stop]` with Python's slice rules: a negative `stop` counts from the end. */
  function SliceTo(s: string, stop: int): (r: string)
    ensures r <= s
    ensures 0 <= stop ==> |r| == if stop <= |s| then stop else |s|
    ensures stop < 0 ==> |r| == if |s| + stop >= 0 then |s| + stop else 0
  {
    if stop >= 0 then (if stop <= |s| then s[..stop] else s)
    else if |s| + stop >= 0 then s[..|s| + stop]
    else []
  }

  /**
    The comment as written after `# `: a comment longer than `maxLen - 2`
    becomes `comment[:maxLen-5] + "..."`.
   */
  function Truncate(c: string, maxLen: int): string
  {
    if |c| > maxLen - 2 then SliceTo(c, maxLen - 5) + "..." else c
  }

  /** The text written for one item. */
  function RenderLine(entry: string, comment: string, maxLen: int): string
  {
    if comment != [] then entry + " " + "# " + Truncate(comment, maxLen) + "\n"
    else entry + "\n"
  }

  /** The whole file text for the items, in order. */
  function Render(items: Items, maxLen: int): string
  {
    if items == [] then []
    else RenderLine(items[0].0, items[0].1, maxLen) + Render(items[1..], maxLen)
  }

  lemma {:induction false} RenderSnoc(items: Items, maxLen: int, i: nat)
    requires i < |items|
    ensures Render(items[..i + 1], maxLen) == Render(items[..i], maxLen) + RenderLine(items[i].0, items[i].1, maxLen)
  {
    if i > 0 {
      var t := items[1..];
      var first := RenderLine(items[0].0, items[0].1, maxLen);
      assert items[..i + 1][1..] == t[..i];
      assert items[..i][1..] == t[..i - 1];
      assert Render(items[..i + 1], maxLen) == first + Render(t[..i], maxLen);
      assert Render(items[..i], maxLen) == first + Render(t[..i - 1], maxLen);
      RenderSnoc(t, maxLen, i - 1);
      assert t[i - 1] == items[i];
    } else {
      assert items[..1][1..] == [];
    }
  }

  /** The write loop: `file.write(...)` once per item, in dict order. */
  method WriteEntries(items: Items, maxLen: int) returns (text: string)
    ensures text == Render(items, maxLen)
  {
    text := "";
    var i := 0;
    while i < |items|
      invariant 0 <= i <= |items|
      invariant text == Render(items[..i], maxLen)
    {
      var (entry, comment) := items[i];
      var line;
      if comment != [] {
        var shown := if |comment| > maxLen - 2 then SliceTo(comment, maxLen - 5) + "..." else comment;
        line := entry + " " + "# " + shown + "\n";
      } else {
        line := entry + "\n";
      }
      RenderSnoc(items, maxLen, i);
      text := text + line;
      i := i + 1;
    }
    assert items[..i] == items;
  }

  // Comment truncation

  /** With a limit of at least 5, the `# ` and the comment together take at most `maxLen` characters. */
  lemma TruncateBound(c: string, maxLen: int)
    requires maxLen >= 5
    ensures |"# " + Truncate(c, maxLen)| <= maxLen
    ensures |c| > maxLen - 2 ==> |Truncate(c, maxLen)| == maxLen - 2
    ensures |c| > maxLen - 2 ==> Truncate(c, maxLen) == c[..maxLen - 5] + "..."
    ensures |c| <= maxLen - 2 ==> Truncate(c, maxLen) == c
  {
  }

  /** Truncating an already-written comment again changes nothing. */
  lemma TruncateIdempotent(c: string, maxLen: int)
    requires maxLen >= 5
    ensures Truncate(Truncate(c, maxLen), maxLen) == Truncate(c, maxLen)
  {
    TruncateBound(c, maxLen);
  }

  /**
    Below 5 the slice stop is negative and counts from the end, so the
    "truncated" comment is longer than the limit and grows on every pass.
   */
  lemma TruncateSmallLimit()
    ensures Truncate("abcdef", 4) == "abcde..."
    ensures |"# " + Truncate("abcdef", 4)| > 4
    ensures Truncate(Truncate("abcdef", 4), 4) != Truncate("abcdef", 4)
  {
    assert SliceTo("abcdef", -1) == "abcde";
    assert SliceTo("abcde...", -1) == "abcde..";
  }

  // Reading the file back

  /**
    One line as the loader reads it: `None` for a blank line or one that
    starts with `#`; otherwise the stripped text before the first space and
    the rest with `#`, spaces and then whitespace stripped.
   */
  function ParseLine(line: string): Option<(string, string)>
  {
    if Strip(line) == [] || (line != [] && line[0] == '#') then None
    else
      var parts := SplitOnce(line, ' ');
      var entry := Strip(parts[0]);
      var comment := if |parts| > 1 then Strip(StripHashSpace(parts[1])) else "";
      Some((entry, comment))
  }

  /** The dict the loader builds: `entries[entry] = comment` for each line in turn. */
  function Loaded(lines: seq<string>): (d: Items)
    ensures UniqueKeys(d)
  {
    if lines == [] then []
    else
      var d := Loaded(lines[..|lines| - 1]);
      match ParseLine(lines[|lines| - 1])
      case None => d
      case Some((entry, comment)) =>
        PutGet(d, entry, comment);
        Put(d, entry, comment)
  }

  lemma LoadedStep(lines: seq<string>, i: nat)
    requires i < |lines|
    ensures Loaded(lines[..i + 1]) ==
      match ParseLine(lines[i])
      case None => Loaded(lines[..i])
      case Some((entry, comment)) => Put(Loaded(lines[..i]), entry, comment)
  {
    assert lines[..i + 1][..i] == lines[..i];
  }

  /** `load_existing_output_file_entries(path)`; `file` is the file's text, `None` when it does not exist. */
  method LoadExistingOutputFileEntries(file: Option<string>) returns (entries: Items)
    ensures file.None? ==> entries == []
    ensures file.Some? ==> entries == Loaded(FileLines(file.value))
    ensures UniqueKeys(entries)
  {
    entries := [];
    if file.Some? {
      var lines := FileLines(file.value);
      var i := 0;
      while i < |lines|
        invariant 0 <= i <= |lines|
        invariant entries == Loaded(lines[..i])
      {
        LoadedStep(lines, i);
        match ParseLine(lines[i]) {
          case Some((entry, comment)) =>
            entries := Put(entries, entry, comment);
          case None =>
        }
        i := i + 1;
      }
      assert lines[..i] == lines;
    }
  }

  // Round trip

  predicate NoSpace(s: string)
  {
    forall i :: 0 <= i < |s| ==> !IsSpace(s[i])
  }

  /** An entry the loader gives back unchanged: non-empty, no whitespace, not a `#` line. */
  predicate CleanEntry(e: string)
  {
    e != [] && e[0] != '#' && NoSpace(e)
  }

  /**
    A comment the loader gives back unchanged once written: on one line, and
    not starting with `#` or whitespace, nor ending with whitespace.
   */
  predicate CleanComment(c: string)
  {
    '\n' !in c && '\r' !in c
    && (c != [] ==> c[0] != '#' && !IsSpace(c[0]) && !IsSpace(c[|c| - 1]))
  }

  /** The dict as the file holds it: every non-empty comment truncated. */
  function Written(items: Items, maxLen: int): (w: Items)
    ensures |w| == |items|
    ensures forall i :: 0 <= i < |items| ==> w[i].0 == items[i].0
  {
    seq(|items|, i requires 0 <= i < |items| =>
      (items[i].0, if items[i].1 == [] then [] else Truncate(items[i].1, maxLen)))
  }

  lemma TruncateClean(c: string, maxLen: int)
    requires CleanComment(c) && c != []
    ensures CleanComment(Truncate(c, maxLen)) && Truncate(c, maxLen) != []
  {
    var t := Truncate(c, maxLen);
    if |c| > maxLen - 2 {
      var head := SliceTo(c, maxLen - 5);
      assert t == head + "...";
      assert forall x :: x in head ==> x in c;
      if head != [] {
        assert t[0] == c[0];
      }
    }
  }

  /** The line written for a clean item parses back to the item with its written comment. */
  lemma ParseRenderLine(e: string, c: string, maxLen: int)
    requires CleanEntry(e) && CleanComment(c)
    ensures ParseLine(RenderLine(e, c, maxLen)) == Some((e, if c == [] then [] else Truncate(c, maxLen)))
  {
    if c == [] {
      ParseBareLine(e);
    } else {
      TruncateClean(c, maxLen);
      ParseCommentLine(e, Truncate(c, maxLen));
    }
  }

  lemma ParseBareLine(e: string)
    requires CleanEntry(e)
    ensures ParseLine(e + "\n") == Some((e, []))
  {
    var line := e + "\n";
    assert IsSpace('\n');
    assert line[0] == e[0];
    assert ' ' !in line by {
      forall i | 0 <= i < |line|
        ensures line[i] != ' '
      {
        if i < |e| {
          assert line[i] == e[i];
        }
      }
    }
    EntryNotBlank(e, "\n");
    StripEntry(e, "\n");
  }

  lemma ParseCommentLine(e: string, t: string)
    requires CleanEntry(e) && CleanComment(t) && t != []
    ensures ParseLine(e + " " + "# " + t + "\n") == Some((e, t))
  {
    var rest := "# " + t + "\n";
    var line := e + [' '] + rest;
    assert e + " " + "# " + t + "\n" == line;
    EntryLineNotSkipped(e, rest);
    SplitOnceAt(e, ' ', rest);
    StripCleanEntry(e);
    StripComment(t);
    ParseSplitLine(line, e, rest);
  }

  /** A clean entry, a space and any rest make a line that is neither blank nor a comment. */
  lemma EntryLineNotSkipped(e: string, rest: string)
    requires CleanEntry(e)
    ensures (e + [' '] + rest)[0] != '#' && Strip(e + [' '] + rest) != []
  {
    var line := e + [' '] + rest;
    assert line[0] == e[0];
    EntryNotBlank(e, [' '] + rest);
    assert line == e + ([' '] + rest);
  }

  lemma StripCleanEntry(e: string)
    requires CleanEntry(e)
    ensures Strip(e) == e
  {
    StripEntry(e, []);
    assert e + [] == e;
  }

  /** A line that is not blank, not a comment and has a space parses into its two parts, stripped. */
  lemma ParseSplitLine(line: string, head: string, rest: string)
    requires Strip(line) != [] && line[0] != '#'
    requires SplitOnce(line, ' ') == [head, rest]
    ensures ParseLine(line) == Some((Strip(head), Strip(StripHashSpace(rest))))
  {
  }

  lemma SplitOnceAt(a: string, sep: char, b: string)
    requires sep !in a
    ensures SplitOnce(a + [sep] + b, sep) == [a, b]
  {
    var s := a + [sep] + b;
    assert IndexOf(s, sep) == |a| by {
      IndexOfFirst(s, sep);
      assert s[|a|] == sep;
      assert forall j :: 0 <= j < |a| ==> s[j] == a[j];
    }
    assert s[..|a|] == a && s[|a| + 1..] == b;
  }

  /** Whitespace after a clean entry is stripped away. */
  lemma StripEntry(e: string, tail: string)
    requires CleanEntry(e) && forall i :: 0 <= i < |tail| ==> IsSpace(tail[i])
    ensures Strip(e + tail) == e
  {
    LStripNone(e + tail, IsSpace);
    RStripAll(e, tail);
  }

  /** A line that starts with a clean entry is not blank. */
  lemma EntryNotBlank(e: string, tail: string)
    requires CleanEntry(e)
    ensures Strip(e + tail) != []
  {
    var s := e + tail;
    LStripNone(s, IsSpace);
    RStripKeepsNonSpace(s, |e| - 1);
  }

  lemma {:induction false} RStripAll(e: string, tail: string)
    requires e != [] && !IsSpace(e[|e| - 1]) && forall i :: 0 <= i < |tail| ==> IsSpace(tail[i])
    ensures RStrip(e + tail, IsSpace) == e
  {
    if tail == [] {
      assert e + tail == e;
      RStripNone(e, IsSpace);
    } else {
      var s := e + tail;
      assert s[..|s| - 1] == e + tail[..|tail| - 1];
      RStripAll(e, tail[..|tail| - 1]);
    }
  }

  lemma RStripKeepsNonSpace(s: string, k: nat)
    requires k < |s| && !IsSpace(s[k])
    ensures |RStrip(s, IsSpace)| > k
  {
  }

  /** `("# " + t + "\n").strip("# ").strip()` is `t` for a clean non-empty `t`. */
  lemma StripComment(t: string)
    requires CleanComment(t) && t != []
    ensures Strip(StripHashSpace("# " + t + "\n")) == t
  {
    StripHashPrefix(t);
    RStripNone(t + "\n", IsHashOrSpace);
    StripNewline(t);
  }

  lemma StripHashPrefix(t: string)
    requires t != [] && t[0] != '#' && t[0] != ' '
    ensures LStrip("# " + t + "\n", IsHashOrSpace) == t + "\n"
  {
    var s := "# " + t + "\n";
    assert s[1..][1..] == t + "\n";
    LStripNone(t + "\n", IsHashOrSpace);
  }

  lemma StripNewline(t: string)
    requires CleanComment(t) && t != []
    ensures Strip(t + "\n") == t
  {
    LStripNone(t + "\n", IsSpace);
    assert IsSpace('\n');
    RStripAll(t, "\n");
  }

  /** The lines of the file, one per item. */
  function Lines(items: Items, maxLen: int): (lines: seq<string>)
    ensures |lines| == |items|
  {
    seq(|items|, i requires 0 <= i < |items| => RenderLine(items[i].0, items[i].1, maxLen))
  }

  lemma {:induction false} RenderLines(items: Items, maxLen: int)
    requires forall i :: 0 <= i < |items| ==> CleanEntry(items[i].0) && CleanComment(items[i].1)
    ensures '\r' !in Render(items, maxLen)
    ensures SplitLinesKeepEnds(Render(items, maxLen)) == Lines(items, maxLen)
  {
    if items != [] {
      var rest := items[1..];
      var line := RenderLine(items[0].0, items[0].1, maxLen);
      forall i | 0 <= i < |rest|
        ensures CleanEntry(rest[i].0) && CleanComment(rest[i].1)
      {
        assert rest[i] == items[i + 1];
      }
      RenderLines(rest, maxLen);
      LineShape(items[0].0, items[0].1, maxLen);
      assert Render(items, maxLen) == line + Render(rest, maxLen);
      SplitLinesCons(line, Render(rest, maxLen));
      LinesCons(items, maxLen);
    }
  }

  lemma LinesCons(items: Items, maxLen: int)
    requires items != []
    ensures Lines(items, maxLen) == [RenderLine(items[0].0, items[0].1, maxLen)] + Lines(items[1..], maxLen)
  {
    var a, b := Lines(items, maxLen), [RenderLine(items[0].0, items[0].1, maxLen)] + Lines(items[1..], maxLen);
    forall i | 0 <= i < |a|
      ensures a[i] == b[i]
    {
      if i > 0 {
        assert items[1..][i - 1] == items[i];
      }
    }
  }

  lemma LineShape(e: string, c: string, maxLen: int)
    requires CleanEntry(e) && CleanComment(c)
    ensures var line := RenderLine(e, c, maxLen);
      |line| >= 1 && line[|line| - 1] == '\n' && '\n' !in line[..|line| - 1] && '\r' !in line
  {
    assert '\n' !in e && '\r' !in e by {
      assert IsSpace('\n') && IsSpace('\r');
    }
    if c != [] {
      TruncateClean(c, maxLen);
      var t := Truncate(c, maxLen);
      var line := RenderLine(e, c, maxLen);
      assert line[..|line| - 1] == e + " " + "# " + t;
    }
  }

  /**
    Loading a written file gives back the dict that was written, with each
    comment as truncated on the way out.
   */
  lemma LoadRenderRoundTrip(items: Items, maxLen: int)
    requires UniqueKeys(items)
    requires forall i :: 0 <= i < |items| ==> CleanEntry(items[i].0) && CleanComment(items[i].1)
    ensures Loaded(FileLines(Render(items, maxLen))) == Written(items, maxLen)
  {
    RenderLines(items, maxLen);
    UniversalNewlinesNoCr(Render(items, maxLen));
    LoadLines(items, maxLen);
  }

  lemma {:induction false} LoadLines(items: Items, maxLen: int)
    requires UniqueKeys(items)
    requires forall i :: 0 <= i < |items| ==> CleanEntry(items[i].0) && CleanComment(items[i].1)
    ensures Loaded(Lines(items, maxLen)) == Written(items, maxLen)
  {
    if items != [] {
      var n := |items| - 1;
      var init := items[..n];
      var lines := Lines(items, maxLen);
      assert UniqueKeys(init);
      LoadLines(init, maxLen);
      assert lines[..n] == Lines(init, maxLen);
      var e, c := items[n].0, items[n].1;
      var t := if c == [] then [] else Truncate(c, maxLen);
      ParseRenderLine(e, c, maxLen);
      LoadedLast(lines, e, t);
      FreshKey(items, maxLen);
      WrittenSnoc(items, maxLen);
    }
  }

  /** In a dict the last key is not among the earlier written items' keys. */
  lemma FreshKey(items: Items, maxLen: int)
    requires UniqueKeys(items) && items != []
    ensures items[|items| - 1].0 !in KeySet(Written(items[..|items| - 1], maxLen))
  {
    var n := |items| - 1;
    var w := Written(items[..n], maxLen);
    forall p | p in w
      ensures p.0 != items[n].0
    {
      var i :| 0 <= i < |w| && w[i] == p;
      assert items[i].0 != items[n].0;
    }
  }

  lemma LoadedLast(lines: seq<string>, e: string, c: string)
    requires lines != [] && ParseLine(lines[|lines| - 1]) == Some((e, c))
    ensures Loaded(lines) == Put(Loaded(lines[..|lines| - 1]), e, c)
  {
  }

  lemma WrittenSnoc(items: Items, maxLen: int)
    requires items != []
    ensures var n := |items| - 1;
      Written(items, maxLen) == Written(items[..n], maxLen)
        + [(items[n].0, if items[n].1 == [] then [] else Truncate(items[n].1, maxLen))]
  {
  }
}
