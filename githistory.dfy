/** The document-history extractor (governance/git_history_extractor.py):
    the rename lookup over `git log --name-status` lines, the line-driven
    parser of `git log -p` output, the keyword filter over saved history
    blocks and the rename chase that joins the histories of a file's
    earlier paths. The output of each `git` call is given as its lines. */
module GitHistory {
  import opened Text

  // ---------------------------------------------------------------------
  // find_renamed_from

  /** The old path a `--name-status` line names when it records a rename of
      `path`: the line starts with `R`, holds a tab, and its stripped text
      splits on tabs into exactly three parts, the third being `path`. */
  function RenameSource(line: string, path: string): Option<string> {
    if StartsWith(line, "R") && '\t' in line then
      var parts := SplitOn(Strip(line), '\t');
      if |parts| == 3 && parts[2] == path then Some(parts[1]) else None
    else None
  }

  /** `find_renamed_from` once `git` has succeeded: the old path of the
      first rename line of `path`, None when there is none. */
  function RenamedFrom(lines: seq<string>, path: string): Option<string> {
    if lines == [] then None
    else if RenameSource(lines[0], path).Some? then RenameSource(lines[0], path)
    else RenamedFrom(lines[1..], path)
  }

  /** The result is the old path of the first line that records a rename
      of `path`, and None exactly when no line does. */
  lemma {:induction false} RenamedFromFirst(lines: seq<string>, path: string)
    ensures RenamedFrom(lines, path).None? <==> forall i :: 0 <= i < |lines| ==> RenameSource(lines[i], path).None?
    ensures RenamedFrom(lines, path).Some? ==>
      exists i :: (0 <= i < |lines| && RenameSource(lines[i], path) == RenamedFrom(lines, path) &&
        forall j :: 0 <= j < i ==> RenameSource(lines[j], path).None?)
  {
    if lines != [] && RenameSource(lines[0], path).None? {
      RenamedFromFirst(lines[1..], path);
      if RenamedFrom(lines, path).Some? {
        var i :| 0 <= i < |lines[1..]| && RenameSource(lines[1..][i], path) == RenamedFrom(lines, path) &&
          forall j :: 0 <= j < i ==> RenameSource(lines[1..][j], path).None?;
        assert forall j :: 0 <= j < i + 1 ==> RenameSource(lines[j], path).None? by {
          forall j | 0 <= j < i + 1
            ensures RenameSource(lines[j], path).None?
          {
            if j > 0 {
              assert lines[j] == lines[1..][j - 1];
            }
          }
        }
        assert RenameSource(lines[i + 1], path) == RenamedFrom(lines, path);
      }
      forall i | 0 <= i < |lines| && RenamedFrom(lines, path).None?
        ensures RenameSource(lines[i], path).None?
      {
        if i > 0 {
          assert lines[i] == lines[1..][i - 1];
        }
      }
    }
  }

  /** A rename line `R<score>\t<source>\t<path>` names `source` when no part holds
      a tab and the line ends in a non-blank character. */
  lemma RenameLine(score: string, source: string, path: string)
    requires '\t' !in score && '\t' !in source && '\t' !in path
    requires path != [] && !IsSpace(path[|path| - 1])
    ensures RenameSource("R" + score + "\t" + source + "\t" + path, path) == Some(source)
  {
    var head := "R" + score;
    var line := "R" + score + "\t" + source + "\t" + path;
    assert Strip(line) == line by {
      RenameLineStripped(score, source, path);
    }
    assert SplitOn(line, '\t') == [head, source, path] by {
      assert line == head + ['\t'] + (source + ['\t'] + path);
      RenameLineParts(head, source, path);
      assert SplitOn(path, '\t') == [path];
    }
    assert '\t' in line by {
      assert line[|head|] == '\t';
    }
    assert StartsWith(line, "R") by {
      assert line[..1] == "R";
    }
    RenameSourceOf(line, head, source, path);
  }

  lemma RenameSourceOf(line: string, head: string, source: string, path: string)
    requires StartsWith(line, "R") && '\t' in line
    requires Strip(line) == line && SplitOn(line, '\t') == [head, source, path]
    ensures RenameSource(line, path) == Some(source)
  {
  }

  lemma RenameLineStripped(score: string, source: string, path: string)
    requires path != [] && !IsSpace(path[|path| - 1])
    ensures Strip("R" + score + "\t" + source + "\t" + path) == "R" + score + "\t" + source + "\t" + path
  {
    var line := "R" + score + "\t" + source + "\t" + path;
    assert line[|line| - 1] == path[|path| - 1];
    StripLeftFixed(line);
    StripRightFixed(line);
  }

  lemma RenameLineParts(head: string, source: string, path: string)
    requires '\t' !in head && '\t' !in source
    ensures SplitOn(head + ['\t'] + (source + ['\t'] + path), '\t') == [head] + ([source] + SplitOn(path, '\t'))
  {
    SplitOnCons(source, '\t', path);
    SplitOnCons(head, '\t', source + ['\t'] + path);
  }

  // ---------------------------------------------------------------------
  // extract_git_history

  /** The keys `entry` has collected so far; None is a key not yet set. */
  datatype Partial = Partial(commit: Option<string>, author: Option<string>, date: Option<string>, message: Option<string>)

  const NoEntry := Partial(None, None, None, None)

  /** A history entry as appended to `history`: it always has a `diff`. */
  datatype Entry = Entry(commit: Option<string>, author: Option<string>, date: Option<string>, message: Option<string>, diff: string)

  /** The loop state: `entry`, `diff_lines`, `parsing_diff` and `history`. */
  datatype Parser = Parser(entry: Partial, diffLines: seq<string>, parsingDiff: bool, history: seq<Entry>)

  const Start := Parser(NoEntry, [], false, [])

  /** `if entry:`, a dict is true once it holds a key. */
  predicate Open(e: Partial) {
    e != NoEntry
  }

  /** The entry appended when a commit ends, with `"\n".join(diff_lines)`. */
  function Close(p: Parser): Entry {
    Entry(p.entry.commit, p.entry.author, p.entry.date, p.entry.message, JoinOn(p.diffLines, '\n'))
  }

  /** `line.split()[1]`, None where the index raises. */
  function CommitId(line: string): Option<string> {
    var w := Words(line);
    if |w| >= 2 then Some(w[1]) else None
  }

  predicate IsCommitLine(line: string) {
    StartsWith(line, "commit ")
  }

  predicate IsAuthorLine(line: string) {
    StartsWith(line, "Author: ")
  }

  predicate IsDateLine(line: string) {
    StartsWith(line, "Date: ")
  }

  predicate IsIndented(line: string) {
    StartsWith(line, "    ")
  }

  predicate IsDiffHeader(line: string) {
    StartsWith(line, "diff --git")
  }

  /** One turn of the line loop; None when `line.split()[1]` raises. */
  function Step(p: Parser, line: string): Option<Parser> {
    if IsCommitLine(line) then
      var q := if Open(p.entry) then Parser(NoEntry, [], false, p.history + [Close(p)]) else p;
      match CommitId(line)
      case None => None
      case Some(id) => Some(q.(entry := q.entry.(commit := Some(id))))
    else if IsAuthorLine(line) then Some(p.(entry := p.entry.(author := Some(line[8..]))))
    else if IsDateLine(line) then Some(p.(entry := p.entry.(date := Some(Strip(line[6..])))))
    else if IsIndented(line) && !p.parsingDiff then Some(p.(entry := p.entry.(message := Some(Strip(line)))))
    else if IsDiffHeader(line) then Some(p.(parsingDiff := true))
    else if p.parsingDiff then Some(p.(diffLines := p.diffLines + [line]))
    else Some(p)
  }

  /** The loop state after `lines`, from `p`. */
  function RunFrom(p: Parser, lines: seq<string>): Option<Parser> {
    if lines == [] then Some(p)
    else
      match RunFrom(p, lines[..|lines| - 1])
      case None => None
      case Some(q) => Step(q, lines[|lines| - 1])
  }

  lemma {:induction false} RunFromAppend(p: Parser, a: seq<string>, b: seq<string>)
    ensures RunFrom(p, a + b) == (match RunFrom(p, a) case None => None case Some(q) => RunFrom(q, b))
  {
    if b == [] {
      assert a + b == a;
    } else {
      RunFromAppend(p, a, b[..|b| - 1]);
      assert (a + b)[..|a + b| - 1] == a + b[..|b| - 1];
    }
  }

  /** `history` after the final `if entry:`. */
  function Finish(p: Parser): seq<Entry> {
    if Open(p.entry) then p.history + [Close(p)] else p.history
  }

  /** `extract_git_history` on the lines of a successful `git log -p`;
      None when a `commit ` line has no second token. */
  function Parse(lines: seq<string>): Option<seq<Entry>> {
    match RunFrom(Start, lines)
    case None => None
    case Some(p) => Some(Finish(p))
  }

  /** The result of `extract_git_history`: `git` failed (the function
      returns None), the parser raised, or the history. */
  datatype Extract = GitFailed | Crashed | History(entries: seq<Entry>)

  function Extracted(log: Option<seq<string>>): Extract {
    match log
    case None => GitFailed
    case Some(lines) =>
      match Parse(lines)
      case None => Crashed
      case Some(h) => History(h)
  }

  /** The line loop of `extract_git_history` and its final flush. */
  method ExtractGitHistory(log: Option<seq<string>>) returns (r: Extract)
    ensures r == Extracted(log)
  {
    if log.None? {
      return GitFailed;
    }
    var lines := log.value;
    var history: seq<Entry> := [];
    var entry := NoEntry;
    var diffLines: seq<string> := [];
    var parsingDiff := false;
    for i := 0 to |lines|
      invariant RunFrom(Start, lines[..i]) == Some(Parser(entry, diffLines, parsingDiff, history))
    {
      var line := lines[i];
      assert lines[..i + 1][..i] == lines[..i];
      if IsCommitLine(line) {
        if entry != NoEntry {
          history := history + [Entry(entry.commit, entry.author, entry.date, entry.message, JoinOn(diffLines, '\n'))];
          entry := NoEntry;
          diffLines := [];
          parsingDiff := false;
        }
        var w := Words(line);
        if |w| < 2 {
          assert RunFrom(Start, lines[..i + 1]) == None;
          RunFromAppend(Start, lines[..i + 1], lines[i + 1..]);
          assert lines[..i + 1] + lines[i + 1..] == lines;
          return Crashed;
        }
        entry := entry.(commit := Some(w[1]));
      } else if IsAuthorLine(line) {
        entry := entry.(author := Some(line[8..]));
      } else if IsDateLine(line) {
        entry := entry.(date := Some(Strip(line[6..])));
      } else if IsIndented(line) && !parsingDiff {
        entry := entry.(message := Some(Strip(line)));
      } else if IsDiffHeader(line) {
        parsingDiff := true;
      } else if parsingDiff {
        diffLines := diffLines + [line];
      }
    }
    assert lines[..|lines|] == lines;
    if entry != NoEntry {
      history := history + [Entry(entry.commit, entry.author, entry.date, entry.message, JoinOn(diffLines, '\n'))];
    }
    return History(history);
  }

  // The meaning of the parser, stated per commit

  /** A commit's part of the log: its `commit ` line and the lines up to the next one. */
  datatype Section = Section(header: string, body: seq<string>)

  predicate WellFormed(s: Section) {
    IsCommitLine(s.header) && CommitId(s.header).Some? && forall l :: l in s.body ==> !IsCommitLine(l)
  }

  function Flatten(ss: seq<Section>): seq<string> {
    if ss == [] then [] else Flatten(ss[..|ss| - 1]) + ([ss[|ss| - 1].header] + ss[|ss| - 1].body)
  }

  /** The value of the last `Author: ` line of a body. */
  function LastAuthor(body: seq<string>): Option<string> {
    if body == [] then None
    else if IsAuthorLine(body[|body| - 1]) then Some(body[|body| - 1][8..])
    else LastAuthor(body[..|body| - 1])
  }

  /** The stripped value of the last `Date: ` line of a body. */
  function LastDate(body: seq<string>): Option<string> {
    if body == [] then None
    else if IsDateLine(body[|body| - 1]) then Some(Strip(body[|body| - 1][6..]))
    else LastDate(body[..|body| - 1])
  }

  predicate HasDiff(body: seq<string>) {
    exists i :: 0 <= i < |body| && IsDiffHeader(body[i])
  }

  /** The stripped text of the last indented line before the first `diff --git`. */
  function Message(body: seq<string>): Option<string> {
    if body == [] then None
    else
      var init := body[..|body| - 1];
      if !HasDiff(init) && IsIndented(body[|body| - 1]) then Some(Strip(body[|body| - 1])) else Message(init)
  }

  /** A diff line is any line but a `diff --git`, `Author: ` or `Date: ` line. */
  predicate Kept(line: string) {
    !IsAuthorLine(line) && !IsDateLine(line) && !IsDiffHeader(line)
  }

  /** The lines after the first `diff --git`, without the other kinds of line. */
  function DiffLines(body: seq<string>): seq<string> {
    if body == [] then []
    else
      var init := body[..|body| - 1];
      DiffLines(init) + (if HasDiff(init) && Kept(body[|body| - 1]) then [body[|body| - 1]] else [])
  }

  /** The entry a commit section is reported as. */
  function SectionEntry(s: Section): Entry {
    Entry(CommitId(s.header), LastAuthor(s.body), LastDate(s.body), Message(s.body), JoinOn(DiffLines(s.body), '\n'))
  }

  /** The loop state after a commit line and part of its body. */
  function InBody(id: string, history: seq<Entry>, body: seq<string>): Parser {
    Parser(Partial(Some(id), LastAuthor(body), LastDate(body), Message(body)), DiffLines(body), HasDiff(body), history)
  }

  /** The line kinds exclude one another: they start with different characters. */
  lemma KindsDisjoint(line: string)
    ensures IsCommitLine(line) ==> !IsAuthorLine(line) && !IsDateLine(line) && !IsIndented(line) && !IsDiffHeader(line)
    ensures IsAuthorLine(line) ==> !IsDateLine(line) && !IsIndented(line) && !IsDiffHeader(line)
    ensures IsDateLine(line) ==> !IsIndented(line) && !IsDiffHeader(line)
    ensures IsIndented(line) ==> !IsDiffHeader(line)
  {
    if IsCommitLine(line) { FirstChar(line, "commit "); }
    if IsAuthorLine(line) { FirstChar(line, "Author: "); }
    if IsDateLine(line) { FirstChar(line, "Date: "); }
    if IsIndented(line) { FirstChar(line, "    "); }
    if IsDiffHeader(line) { FirstChar(line, "diff --git"); }
  }

  lemma FirstChar(s: string, p: string)
    requires StartsWith(s, p) && p != []
    ensures s[0] == p[0]
  {
    assert s[..|p|][0] == s[0];
  }

  lemma HasDiffSnoc(body: seq<string>, line: string)
    ensures HasDiff(body + [line]) <==> HasDiff(body) || IsDiffHeader(line)
  {
    if HasDiff(body) {
      var i :| 0 <= i < |body| && IsDiffHeader(body[i]);
      assert (body + [line])[i] == body[i];
    }
    if HasDiff(body + [line]) && !IsDiffHeader(line) {
      var i :| 0 <= i < |body + [line]| && IsDiffHeader((body + [line])[i]);
      assert i != |body| by {
        assert (body + [line])[|body|] == line;
      }
      assert (body + [line])[i] == body[i];
      assert HasDiff(body);
    }
    if IsDiffHeader(line) {
      assert (body + [line])[|body|] == line;
    }
  }

  /** One body line moves the loop state from one `InBody` to the next. */
  lemma BodyStep(id: string, history: seq<Entry>, body: seq<string>, line: string)
    requires !IsCommitLine(line)
    ensures Step(InBody(id, history, body), line) == Some(InBody(id, history, body + [line]))
  {
    var b := body + [line];
    assert b[..|body|] == body;
    KindsDisjoint(line);
    HasDiffSnoc(body, line);
    if IsAuthorLine(line) {
      assert LastAuthor(b) == Some(line[8..]);
      assert LastDate(b) == LastDate(body);
      assert DiffLines(b) == DiffLines(body);
      assert Message(b) == Message(body);
    } else if IsDateLine(line) {
      assert LastAuthor(b) == LastAuthor(body);
      assert LastDate(b) == Some(Strip(line[6..]));
      assert DiffLines(b) == DiffLines(body);
      assert Message(b) == Message(body);
    } else if IsIndented(line) && !HasDiff(body) {
      assert Message(b) == Some(Strip(line));
      assert DiffLines(b) == DiffLines(body);
    } else if IsDiffHeader(line) {
      assert DiffLines(b) == DiffLines(body);
      assert Message(b) == Message(body);
    } else if HasDiff(body) {
      assert DiffLines(b) == DiffLines(body) + [line];
      assert Message(b) == Message(body);
    } else {
      assert DiffLines(b) == DiffLines(body);
      assert Message(b) == Message(body);
    }
  }

  /** Inside a section the parser collects exactly the reference fields. */
  lemma {:induction false} BodyRun(id: string, history: seq<Entry>, body: seq<string>)
    requires forall l :: l in body ==> !IsCommitLine(l)
    ensures RunFrom(InBody(id, history, []), body) == Some(InBody(id, history, body))
  {
    if body != [] {
      var init := body[..|body| - 1];
      assert forall l :: l in init ==> l in body;
      BodyRun(id, history, init);
      BodyStep(id, history, init, body[|body| - 1]);
      assert init + [body[|body| - 1]] == body;
    }
  }

  /** The entries the sections are reported as, in order. */
  function Entries(ss: seq<Section>): (es: seq<Entry>)
    ensures |es| == |ss|
    ensures forall k :: 0 <= k < |ss| ==> es[k] == SectionEntry(ss[k])
  {
    seq(|ss|, k requires 0 <= k < |ss| => SectionEntry(ss[k]))
  }

  lemma EntriesSnoc(ss: seq<Section>)
    requires ss != []
    ensures Entries(ss) == Entries(ss[..|ss| - 1]) + [SectionEntry(ss[|ss| - 1])]
  {
  }

  /** The first `commit ` line opens the first entry. */
  lemma FirstHeader(h: string)
    requires IsCommitLine(h) && CommitId(h).Some?
    ensures Step(Start, h) == Some(InBody(CommitId(h).value, [], []))
  {
  }

  /** A later `commit ` line reports the open entry and opens the next. */
  lemma NextHeader(prev: Section, history: seq<Entry>, h: string)
    requires CommitId(prev.header).Some? && IsCommitLine(h) && CommitId(h).Some?
    ensures Step(InBody(CommitId(prev.header).value, history, prev.body), h) ==
      Some(InBody(CommitId(h).value, history + [SectionEntry(prev)], []))
  {
    var p := InBody(CommitId(prev.header).value, history, prev.body);
    assert Open(p.entry);
    assert Close(p) == SectionEntry(prev);
  }

  /** The state after the whole of `ss`: the last section is open, every
      earlier one has been reported. */
  lemma {:induction false} SectionsRun(ss: seq<Section>)
    requires |ss| > 0
    requires forall k :: 0 <= k < |ss| ==> WellFormed(ss[k])
    ensures RunFrom(Start, Flatten(ss)) ==
      Some(InBody(CommitId(ss[|ss| - 1].header).GetOr(""), Entries(ss[..|ss| - 1]), ss[|ss| - 1].body))
  {
    var init := ss[..|ss| - 1];
    var s := ss[|ss| - 1];
    assert WellFormed(s);
    var id := CommitId(s.header).value;
    var before := Entries(init);
    RunFromAppend(Start, Flatten(init), [s.header] + s.body);
    var q: Parser;
    if init == [] {
      q := Start;
      FirstHeader(s.header);
    } else {
      assert forall k :: 0 <= k < |init| ==> init[k] == ss[k];
      SectionsRun(init);
      var prev := init[|init| - 1];
      assert WellFormed(prev);
      q := InBody(CommitId(prev.header).value, Entries(init[..|init| - 1]), prev.body);
      NextHeader(prev, Entries(init[..|init| - 1]), s.header);
      EntriesSnoc(init);
    }
    assert RunFrom(Start, Flatten(init)) == Some(q);
    RunFromAppend(q, [s.header], s.body);
    assert [s.header][..0] == [];
    assert RunFrom(q, [s.header]) == Some(InBody(id, before, []));
    BodyRun(id, before, s.body);
  }

  /** A log made of well-formed commit sections parses into one entry per
      section, in order, each with the section's reference fields. */
  lemma ParseSections(ss: seq<Section>)
    requires forall k :: 0 <= k < |ss| ==> WellFormed(ss[k])
    ensures Parse(Flatten(ss)) == Some(Entries(ss))
  {
    if ss != [] {
      SectionsRun(ss);
      EntriesSnoc(ss);
      var s := ss[|ss| - 1];
      assert WellFormed(s);
      NextHeaderClose(s, Entries(ss[..|ss| - 1]));
    }
  }

  lemma NextHeaderClose(s: Section, history: seq<Entry>)
    requires CommitId(s.header).Some?
    ensures Finish(InBody(CommitId(s.header).value, history, s.body)) == history + [SectionEntry(s)]
  {
  }

  /** The sections of a log, cut at every `commit ` line; the lines before
      the first one are not part of any section. */
  function Sections(lines: seq<string>): seq<Section> {
    if lines == [] then []
    else
      var init := Sections(lines[..|lines| - 1]);
      var line := lines[|lines| - 1];
      if IsCommitLine(line) then init + [Section(line, [])]
      else if init == [] then []
      else init[..|init| - 1] + [init[|init| - 1].(body := init[|init| - 1].body + [line])]
  }

  lemma FlattenSnoc(ss: seq<Section>, s: Section)
    ensures Flatten(ss + [s]) == Flatten(ss) + ([s.header] + s.body)
  {
    assert (ss + [s])[..|ss|] == ss;
  }

  /** Adding a line to the last section adds it at the end of the log. */
  lemma FlattenExtendLast(front: seq<Section>, last: Section, line: string)
    ensures Flatten(front + [last.(body := last.body + [line])]) == Flatten(front + [last]) + [line]
  {
    var last' := last.(body := last.body + [line]);
    FlattenSnoc(front, last');
    FlattenSnoc(front, last);
    assert [last'.header] + last'.body == ([last.header] + last.body) + [line];
  }

  /** A log that starts with a `commit ` line is the concatenation of its sections. */
  lemma {:induction false} SectionsFlatten(lines: seq<string>)
    requires lines != [] && IsCommitLine(lines[0])
    ensures Sections(lines) != []
    ensures Flatten(Sections(lines)) == lines
  {
    if |lines| > 1 {
      var initLines := lines[..|lines| - 1];
      var line := lines[|lines| - 1];
      SectionsFlatten(initLines);
      var init := Sections(initLines);
      assert lines == initLines + [line];
      if IsCommitLine(line) {
        FlattenSnoc(init, Section(line, []));
      } else {
        var last := init[|init| - 1];
        assert init == init[..|init| - 1] + [last];
        FlattenExtendLast(init[..|init| - 1], last, line);
      }
    } else {
      assert Sections(lines) == [Section(lines[0], [])];
      FlattenSnoc([], Section(lines[0], []));
    }
  }

  /** Every section starts with a `commit ` line of the log. */
  lemma {:induction false} SectionsHeaders(lines: seq<string>)
    ensures forall k :: 0 <= k < |Sections(lines)| ==> IsCommitLine(Sections(lines)[k].header) && Sections(lines)[k].header in lines
  {
    if lines != [] {
      var initLines := lines[..|lines| - 1];
      SectionsHeaders(initLines);
      assert forall l :: l in initLines ==> l in lines;
    }
  }

  /** No `commit ` line lies inside a section body. */
  lemma {:induction false} SectionsBodies(lines: seq<string>)
    ensures forall k :: 0 <= k < |Sections(lines)| ==> forall l :: l in Sections(lines)[k].body ==> !IsCommitLine(l)
  {
    if lines != [] {
      var initLines := lines[..|lines| - 1];
      var line := lines[|lines| - 1];
      SectionsBodies(initLines);
      var init := Sections(initLines);
      if !IsCommitLine(line) && init != [] {
        var last := init[|init| - 1];
        var ss := init[..|init| - 1] + [last.(body := last.body + [line])];
        forall k | 0 <= k < |ss|
          ensures forall l :: l in ss[k].body ==> !IsCommitLine(l)
        {
          if k < |ss| - 1 {
            assert ss[k] == init[k];
          }
        }
      }
    }
  }

  /** The number of `commit ` lines of a log. */
  function CommitLines(lines: seq<string>): nat {
    if lines == [] then 0 else CommitLines(lines[..|lines| - 1]) + (if IsCommitLine(lines[|lines| - 1]) then 1 else 0)
  }

  lemma {:induction false} SectionsCount(lines: seq<string>)
    requires lines != [] && IsCommitLine(lines[0])
    ensures |Sections(lines)| == CommitLines(lines)
  {
    if |lines| > 1 {
      SectionsCount(lines[..|lines| - 1]);
      SectionsFlatten(lines[..|lines| - 1]);
    }
  }

  /** For a log that starts with a `commit ` line whose `commit ` lines all
      have a second token: one entry per `commit ` line, in order, its
      `commit` the second token, its other fields those of its section. */
  lemma ParseLog(lines: seq<string>)
    requires lines != [] && IsCommitLine(lines[0])
    requires forall l :: l in lines && IsCommitLine(l) ==> CommitId(l).Some?
    ensures Parse(lines).Some?
    ensures |Parse(lines).value| == CommitLines(lines)
    ensures Parse(lines).value == Entries(Sections(lines))
  {
    SectionsFlatten(lines);
    SectionsHeaders(lines);
    SectionsBodies(lines);
    SectionsCount(lines);
    ParseSections(Sections(lines));
  }

  // ---------------------------------------------------------------------
  // extract_commits_with_keyword

  /** The separator between saved history blocks: eighty `=`. */
  const Separator := Repeat('=', 80)

  predicate ContainsAny(block: string, keywords: seq<string>) {
    exists k :: 0 <= k < |keywords| && Contains(block, keywords[k])
  }

  /** The stripped blocks that contain a keyword, each once, in input order. */
  function Matched(blocks: seq<string>, keywords: seq<string>): seq<string> {
    if blocks == [] then []
    else
      var b := blocks[|blocks| - 1];
      Matched(blocks[..|blocks| - 1], keywords) + (if ContainsAny(b, keywords) then [Strip(b)] else [])
  }

  /** Blocks are judged one at a time and kept in order. */
  lemma {:induction false} MatchedAppend(a: seq<string>, b: seq<string>, keywords: seq<string>)
    ensures Matched(a + b, keywords) == Matched(a, keywords) + Matched(b, keywords)
  {
    if b == [] {
      assert a + b == a;
    } else {
      assert (a + b)[..|a + b| - 1] == a + b[..|b| - 1];
      MatchedAppend(a, b[..|b| - 1], keywords);
    }
  }

  /** A block adds its stripped text once when it holds some keyword, nothing otherwise. */
  lemma MatchedOne(b: string, keywords: seq<string>)
    ensures Matched([b], keywords) == if ContainsAny(b, keywords) then [Strip(b)] else []
  {
    assert [b][..0] == [];
  }

  /** An empty keyword list keeps nothing. */
  lemma {:induction false} MatchedNoKeywords(blocks: seq<string>)
    ensures Matched(blocks, []) == []
  {
    if blocks != [] {
      MatchedNoKeywords(blocks[..|blocks| - 1]);
    }
  }

  /** The filter of `extract_commits_with_keyword` over the file content. */
  method ExtractCommitsWithKeyword(content: string, keywords: seq<string>) returns (matched: seq<string>)
    ensures matched == Matched(SplitOnSep(content, Separator), keywords)
  {
    var commits := SplitOnSep(content, Separator);
    matched := [];
    for i := 0 to |commits|
      invariant matched == Matched(commits[..i], keywords)
    {
      var commit := commits[i];
      assert commits[..i + 1][..i] == commits[..i];
      ghost var before := matched;
      for j := 0 to |keywords|
        invariant matched == before
        invariant forall k :: 0 <= k < j ==> !Contains(commit, keywords[k])
      {
        if Contains(commit, keywords[j]) {
          matched := matched + [Strip(commit)];
          break;
        }
      }
    }
    assert commits[..|commits|] == commits;
  }

  // ---------------------------------------------------------------------
  // extract_full_history_with_renames

  /** The old path the rename log of `path` names; the `--name-status`
      logs that `git` produced, by path (a path without one is a failed call). */
  function OlderPath(renames: map<string, seq<string>>, path: string): Option<string> {
    if path in renames then RenamedFrom(renames[path], path) else None
  }

  /** The paths the chase visits from `path` when `visited` are done: it
      stops at an empty or visited path, and after a path with no
      (non-empty) older path. */
  function Trail(path: string, visited: set<string>, renames: map<string, seq<string>>): seq<string>
    decreases renames.Keys - visited
  {
    if path == [] || path in visited then []
    else
      var older := OlderPath(renames, path);
      if older.Some? && older.value != [] then [path] + Trail(older.value, visited + {path}, renames)
      else [path]
  }

  /** The chase visits no path twice and no path already visited. */
  lemma {:induction false} TrailDistinct(path: string, visited: set<string>, renames: map<string, seq<string>>)
    ensures forall i :: 0 <= i < |Trail(path, visited, renames)| ==> Trail(path, visited, renames)[i] !in visited
    ensures forall i, j :: 0 <= i < j < |Trail(path, visited, renames)| ==> Trail(path, visited, renames)[i] != Trail(path, visited, renames)[j]
    decreases renames.Keys - visited
  {
    if path != [] && path !in visited {
      var older := OlderPath(renames, path);
      if older.Some? && older.value != [] {
        TrailDistinct(older.value, visited + {path}, renames);
      }
    }
  }

  /** Each visited path after the first is the older path of the one before. */
  lemma {:induction false} TrailLinks(path: string, visited: set<string>, renames: map<string, seq<string>>)
    ensures Trail(path, visited, renames) != [] ==> Trail(path, visited, renames)[0] == path
    ensures forall i :: 0 <= i < |Trail(path, visited, renames)| - 1 ==>
      OlderPath(renames, Trail(path, visited, renames)[i]) == Some(Trail(path, visited, renames)[i + 1])
    decreases renames.Keys - visited
  {
    if path != [] && path !in visited {
      var older := OlderPath(renames, path);
      if older.Some? && older.value != [] {
        TrailLinks(older.value, visited + {path}, renames);
      }
    }
  }

  /** The chase visits at most one path more than `git` has rename logs for. */
  lemma {:induction false} TrailBound(path: string, visited: set<string>, renames: map<string, seq<string>>)
    ensures |Trail(path, visited, renames)| <= |renames.Keys - visited| + 1
    decreases renames.Keys - visited
  {
    if path != [] && path !in visited {
      var older := OlderPath(renames, path);
      if older.Some? && older.value != [] {
        TrailBound(older.value, visited + {path}, renames);
        assert renames.Keys - (visited + {path}) == (renames.Keys - visited) - {path};
      }
    }
  }

  /** The joined history of the visited paths, older paths first; None when
      one of the parses raises. A failed `git` call or an empty history
      adds nothing. */
  function Gathered(trail: seq<string>, logOf: string -> Option<seq<string>>): Option<seq<Entry>> {
    if trail == [] then Some([])
    else
      match Gathered(trail[..|trail| - 1], logOf)
      case None => None
      case Some(all) =>
        match Extracted(logOf(trail[|trail| - 1]))
        case Crashed => None
        case GitFailed => Some(all)
        case History(h) => Some(h + all)
  }

  /** Histories of later-visited (older) paths come before those of earlier-visited ones. */
  lemma {:induction false} GatheredOrder(a: seq<string>, b: seq<string>, logOf: string -> Option<seq<string>>)
    requires Gathered(a, logOf).Some? && Gathered(b, logOf).Some?
    ensures Gathered(a + b, logOf) == Some(Gathered(b, logOf).value + Gathered(a, logOf).value)
  {
    if b == [] {
      assert a + b == a;
      assert [] + Gathered(a, logOf).value == Gathered(a, logOf).value;
    } else {
      var init := b[..|b| - 1];
      assert (a + b)[..|a + b| - 1] == a + init;
      var x := b[|b| - 1];
      assert (a + b)[|a + b| - 1] == x;
      assert Gathered(init, logOf).Some?;
      GatheredOrder(a, init, logOf);
      var ga, gi := Gathered(a, logOf).value, Gathered(init, logOf).value;
      match Extracted(logOf(x))
      case GitFailed =>
      case History(h) =>
        assert Gathered(a + b, logOf) == Some(h + (gi + ga));
        assert h + (gi + ga) == (h + gi) + ga;
    }
  }

  /** A path with a non-empty older path leads on to it. */
  lemma TrailContinue(start: string, done: seq<string>, path: string, visited: set<string>, renames: map<string, seq<string>>)
    requires path != [] && path !in visited
    requires done + Trail(path, visited, renames) == Trail(start, {}, renames)
    requires OlderPath(renames, path).Some? && OlderPath(renames, path).value != []
    ensures (done + [path]) + Trail(OlderPath(renames, path).value, visited + {path}, renames) == Trail(start, {}, renames)
  {
    assert Trail(path, visited, renames) == [path] + Trail(OlderPath(renames, path).value, visited + {path}, renames);
  }

  /** A path without one ends the chase. */
  lemma TrailStop(start: string, done: seq<string>, path: string, visited: set<string>, renames: map<string, seq<string>>)
    requires path != [] && path !in visited
    requires done + Trail(path, visited, renames) == Trail(start, {}, renames)
    requires !(OlderPath(renames, path).Some? && OlderPath(renames, path).value != [])
    ensures done + [path] == Trail(start, {}, renames)
  {
    assert Trail(path, visited, renames) == [path];
  }

  /** The chase so far is a prefix of the whole chase. */
  lemma TrailPrefix(start: string, done: seq<string>, path: string, visited: set<string>, renames: map<string, seq<string>>)
    requires path != [] && path !in visited
    requires done + Trail(path, visited, renames) == Trail(start, {}, renames)
    ensures exists rest :: (done + [path]) + rest == Trail(start, {}, renames)
  {
    var t := Trail(path, visited, renames);
    assert t == [path] + t[1..];
    assert (done + [path]) + t[1..] == Trail(start, {}, renames);
  }

  lemma GatheredSnoc(done: seq<string>, path: string, logOf: string -> Option<seq<string>>, all: seq<Entry>)
    requires Gathered(done, logOf) == Some(all)
    ensures Extracted(logOf(path)).Crashed? ==> Gathered(done + [path], logOf) == None
    ensures Extracted(logOf(path)).GitFailed? ==> Gathered(done + [path], logOf) == Some(all)
    ensures Extracted(logOf(path)).History? ==> Gathered(done + [path], logOf) == Some(Extracted(logOf(path)).entries + all)
  {
    assert (done + [path])[..|done|] == done;
  }

  /** `extract_full_history_with_renames`: None where a parse raises. */
  method FullHistory(start: string, logOf: string -> Option<seq<string>>, renames: map<string, seq<string>>)
    returns (all: Option<seq<Entry>>)
    ensures all == Gathered(Trail(start, {}, renames), logOf)
  {
    var path := start;
    var visited: set<string> := {};
    var allHistory: seq<Entry> := [];
    ghost var done: seq<string> := [];
    while path != [] && path !in visited
      invariant done + Trail(path, visited, renames) == Trail(start, {}, renames)
      invariant Gathered(done, logOf) == Some(allHistory)
      decreases renames.Keys - visited
    {
      var history := ExtractGitHistory(logOf(path));
      GatheredSnoc(done, path, logOf, allHistory);
      if history.Crashed? {
        TrailPrefix(start, done, path, visited, renames);
        ghost var rest :| (done + [path]) + rest == Trail(start, {}, renames);
        GatheredNone(done + [path], rest, logOf);
        return None;
      }
      if history.History? && history.entries != [] {
        allHistory := history.entries + allHistory;
      } else if history.History? {
        assert history.entries + allHistory == allHistory;
      }
      var oldPath := OlderPath(renames, path);
      if oldPath.Some? && oldPath.value != [] {
        TrailContinue(start, done, path, visited, renames);
        done := done + [path];
        visited := visited + {path};
        path := oldPath.value;
      } else {
        TrailStop(start, done, path, visited, renames);
        return Some(allHistory);
      }
    }
    assert done == Trail(start, {}, renames);
    return Some(allHistory);
  }

  /** Once a parse raises, the whole chase raises. */
  lemma {:induction false} GatheredNone(a: seq<string>, b: seq<string>, logOf: string -> Option<seq<string>>)
    requires Gathered(a, logOf).None?
    ensures Gathered(a + b, logOf).None?
  {
    if b == [] {
      assert a + b == a;
    } else {
      GatheredNone(a, b[..|b| - 1], logOf);
      assert (a + b)[..|a + b| - 1] == a + b[..|b| - 1];
    }
  }
}
