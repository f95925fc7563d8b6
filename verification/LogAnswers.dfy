/**
 Which lines readLogs of internal/gateway/logs.go answers with, in terms of the
 texts of the files: period, filters, whole lines, and the mark of a cut answer.
 */
module LogAnswers {
  import opened Wrappers
  import opened Text
  import opened Timestamps
  import opened LogOrder
  import opened Logs

  /******* What a caller asks for *******/

  predicate InPeriod(q: Query, at: Moment) {
    Seconds(q.from) <= Seconds(at) <= Seconds(q.to)
  }

  // The line passes, and l is its entry: with a known time in the period, or without a time and
  // from a current file.
  predicate Meets(q: Query, parse: string -> Option<Moment>, id: string, current: bool, l: LogLine) {
    && q.contains(l.line) && q.statuses(l.line)
    && match parse(l.line)
       case Some(at) => InPeriod(q, at) && l == LogLine(id, Format(at), false, l.line)
       case None => current && l == LogLine(id, "", true, l.line)
  }

  predicate MeetsJournal(q: Query, l: LogLine) {
    l == LogLine("node_runtime", "", false, l.line) && l.line != "" && q.contains(l.line)
  }

  // A line of the text from a to b, without its line end.
  predicate LineAt(text: string, a: nat, b: nat) {
    && a < |text| && a <= b <= |text| && (a == 0 || text[a - 1] == '\n')
    && (forall k :: a <= k < b ==> text[k] != '\n') && (b < |text| ==> text[b] == '\n')
  }

  // The line without one carriage return at its end.
  predicate BareOf(line: string, whole: string) {
    whole == line + "\r" || (whole == line && (line == "" || line[|line| - 1] != '\r'))
  }

  // The line t stands from a to b.
  ghost predicate IsPlace(s: string, t: string, a: nat, b: nat) {
    LineAt(s, a, b) && BareOf(t, s[a..b])
  }

  ghost predicate HasLine(text: string, line: string) {
    exists a: nat, b: nat :: IsPlace(text, line, a, b)
  }

  // A stretch of the text that starts where a line starts; its end may be cut off.
  ghost predicate StartsLine(text: string, line: string, a: nat) {
    a + |line| <= |text| && text[a..a + |line|] == line && '\n' !in line && (a == 0 || text[a - 1] == '\n')
  }

  ghost predicate HasPart(text: string, line: string) {
    exists a: nat :: StartsLine(text, line, a)
  }

  /******* Filtering *******/

  lemma {:induction false} KeptMembers(filter: string -> Option<LogLine>, lines: seq<string>, l: LogLine)
    ensures l in Kept(filter, lines) <==> exists t :: t in lines && filter(t) == Some(l)
  {
    if lines != [] {
      KeptMembers(filter, lines[1..], l);
      assert forall t :: t in lines <==> t == lines[0] || t in lines[1..];
    }
  }

  lemma FilterMeets(q: Query, parse: string -> Option<Moment>, id: string, current: bool, t: string, l: LogLine)
    ensures FileFilter(q, parse, id, current)(t) == Some(l) <==> t == l.line && Meets(q, parse, id, current, l)
  {
  }

  lemma KeptMeet(q: Query, parse: string -> Option<Moment>, id: string, current: bool, lines: seq<string>, l: LogLine)
    ensures l in Kept(FileFilter(q, parse, id, current), lines) <==> l.line in lines && Meets(q, parse, id, current, l)
  {
    var filter := FileFilter(q, parse, id, current);
    KeptMembers(filter, lines, l);
    forall t
      ensures filter(t) == Some(l) <==> t == l.line && Meets(q, parse, id, current, l)
    {
      FilterMeets(q, parse, id, current, t, l);
    }
  }

  lemma KeptJournal(q: Query, lines: seq<string>, l: LogLine)
    ensures l in Kept(JournalFilter(q), lines) <==> l.line in lines && MeetsJournal(q, l)
  {
    KeptMembers(JournalFilter(q), lines, l);
  }

  /******* Lines of a text *******/

  lemma TokenIsBare(line: string)
    ensures BareOf(Token(line), line)
    ensures forall t :: BareOf(t, line) ==> t == Token(line)
  {
    if line != "" && line[|line| - 1] == '\r' {
      assert line == Token(line) + "\r";
    }
    forall t | BareOf(t, line)
      ensures t == Token(line)
    {
      if line == t + "\r" {
        assert line[..|line| - 1] == t;
      }
    }
  }

  lemma FirstLineAt(s: string)
    requires s != ""
    ensures LineAt(s, 0, |FirstLine(s)|) && s[0..|FirstLine(s)|] == FirstLine(s)
    ensures forall b: nat :: LineAt(s, 0, b) ==> b == |FirstLine(s)|
  {
    var line := FirstLine(s);
    assert forall k :: 0 <= k < |line| ==> s[k] == line[k] && line[k] in line;
  }

  lemma LineBehind(s: string, n: nat, a: nat, b: nat)
    requires n < |s| && s[n] == '\n'
    ensures LineAt(s[n + 1..], a, b) <==> LineAt(s, a + n + 1, b + n + 1)
    ensures LineAt(s[n + 1..], a, b) ==> s[n + 1..][a..b] == s[a + n + 1..b + n + 1]
  {
    var rest := s[n + 1..];
    assert forall k :: 0 <= k < |rest| ==> rest[k] == s[k + n + 1];
    if LineAt(s, a + n + 1, b + n + 1) {
      assert forall k :: a <= k < b ==> rest[k] == s[k + n + 1];
    }
    if LineAt(rest, a, b) {
      assert forall k :: a + n + 1 <= k < b + n + 1 ==> s[k] == rest[k - n - 1];
    }
  }

  lemma FirstToken(s: string)
    requires s != ""
    ensures var n := |FirstLine(s)|;
      && Tokens(s) != [] && Tokens(s)[0] == Token(FirstLine(s))
      && Tokens(s)[1..] == (if n == |s| then [] else Tokens(s[n + 1..]))
  {
  }

  // The line t stands somewhere, and not at the start when `later`.
  ghost predicate Stands(s: string, t: string, later: bool) {
    exists a: nat, b: nat :: IsPlace(s, t, a, b) && (later ==> a > 0)
  }

  lemma StandsBehind(s: string, n: nat, t: string)
    requires n < |s| && s[n] == '\n' && Stands(s[n + 1..], t, false)
    ensures Stands(s, t, true)
  {
    var a: nat, b: nat :| IsPlace(s[n + 1..], t, a, b);
    LineBehind(s, n, a, b);
    assert IsPlace(s, t, a + n + 1, b + n + 1);
  }

  lemma FirstStands(s: string)
    requires s != ""
    ensures Stands(s, Token(FirstLine(s)), false)
  {
    FirstLineAt(s);
    TokenIsBare(FirstLine(s));
    assert IsPlace(s, Token(FirstLine(s)), 0, |FirstLine(s)|);
  }

  // The tokens behind the first one are those of the rest.
  lemma LaterToken(s: string, k: nat)
    requires 0 < k < |Tokens(s)|
    ensures
      var n := |FirstLine(s)|;
      && n < |s| && s[n] == '\n' && Tokens(s[n + 1..]) == Tokens(s)[1..]
  {
    FirstToken(s);
  }

  /** The k-th token is a line of the text, behind its start unless it is the first. */
  lemma {:induction false} TokenStands(s: string, k: nat)
    requires k < |Tokens(s)|
    ensures Stands(s, Tokens(s)[k], k > 0)
    decreases |s|
  {
    if k == 0 {
      FirstToken(s);
      FirstStands(s);
    } else {
      LaterToken(s, k);
      var rest := s[|FirstLine(s)| + 1..];
      TokenStands(rest, k - 1);
      StandsBehind(s, |FirstLine(s)|, Tokens(s)[1..][k - 1]);
    }
  }

  lemma FirstLineIsToken(s: string, b: nat, t: string)
    requires IsPlace(s, t, 0, b)
    ensures t in Tokens(s)
  {
    FirstLineAt(s);
    TokenIsBare(FirstLine(s));
    FirstToken(s);
  }

  lemma LaterStart(s: string, a: nat)
    requires 0 < a < |s| && s[a - 1] == '\n'
    ensures var n := |FirstLine(s)|; a > n && n < |s| && s[n] == '\n'
  {
    var line := FirstLine(s);
    assert forall k :: 0 <= k < |line| ==> s[k] == line[k] && line[k] in line;
  }

  // A line that starts behind a line end stands in the rest.
  lemma LaterPlace(s: string, n: nat, a: nat, b: nat, t: string)
    requires n < |s| && s[n] == '\n' && n < a <= b && IsPlace(s, t, a, b)
    ensures IsPlace(s[n + 1..], t, a - n - 1, b - n - 1)
  {
    LineBehind(s, n, a - n - 1, b - n - 1);
  }

  /** Every line of the text is one of its tokens. */
  lemma {:induction false} LineIsToken(s: string, a: nat, b: nat, t: string)
    requires IsPlace(s, t, a, b)
    ensures t in Tokens(s)
    decreases |s|
  {
    if a == 0 {
      FirstLineIsToken(s, b, t);
    } else {
      var n := |FirstLine(s)|;
      LaterStart(s, a);
      LaterPlace(s, n, a, b, t);
      LineIsToken(s[n + 1..], a - n - 1, b - n - 1, t);
      FirstToken(s);
    }
  }

  lemma TokensAreLines(s: string, t: string)
    ensures t in Tokens(s) <==> HasLine(s, t)
  {
    if t in Tokens(s) {
      var k: nat :| k < |Tokens(s)| && Tokens(s)[k] == t;
      TokenStands(s, k);
      var a: nat, b: nat :| IsPlace(s, t, a, b);
    }
    if HasLine(s, t) {
      var a: nat, b: nat :| IsPlace(s, t, a, b);
      LineIsToken(s, a, b, t);
    }
  }

  // What the first line of a text gives the scanner.
  lemma FirstScan(s: string)
    requires s != ""
    ensures var n := |FirstLine(s)|;
      || Scan(s).0 == []
      || (n == |s| && Scan(s).0 == [Token(FirstLine(s))])
      || (n < |s| && Scan(s).0 == [Token(FirstLine(s))] + Scan(s[n + 1..]).0)
  {
  }

  lemma LongerPrefix(first: seq<string>, scanned: seq<string>, tokens: seq<string>, all: seq<string>)
    requires scanned <= tokens && |first| == 1 && |all| == 1 + |tokens| && all[0] == first[0] && all[1..] == tokens
    ensures first + scanned <= all
  {
  }

  lemma {:induction false} ScanIsPrefix(s: string)
    ensures Scan(s).0 <= Tokens(s)
    decreases |s|
  {
    if s != "" {
      var n, line := |FirstLine(s)|, Token(FirstLine(s));
      FirstToken(s);
      FirstScan(s);
      if n < |s| {
        ScanIsPrefix(s[n + 1..]);
        LongerPrefix([line], Scan(s[n + 1..]).0, Tokens(s[n + 1..]), Tokens(s));
      }
    }
  }

  /******* One file *******/

  lemma PartOfStream(text: string, offset: nat, stream: string, a: nat, b: nat, t: string)
    requires offset + |stream| <= |text| && stream == text[offset..offset + |stream|]
    requires LineAt(stream, a, b) && BareOf(t, stream[a..b]) && (offset > 0 ==> a > 0)
    ensures StartsLine(text, t, offset + a)
  {
    assert |t| <= b - a && forall k :: 0 <= k < |t| ==> t[k] == stream[a..b][k] && stream[a..b][k] == stream[a + k];
    assert forall k :: 0 <= k < |stream| ==> stream[k] == text[offset + k];
    assert text[offset + a..offset + a + |t|] == t;
    if a > 0 {
      assert text[offset + a - 1] == stream[a - 1];
    }
  }

  lemma StandsInText(text: string, offset: nat, stream: string, t: string, later: bool)
    requires offset + |stream| <= |text| && stream == text[offset..offset + |stream|]
    requires Stands(stream, t, later) && (offset > 0 ==> later)
    ensures HasPart(text, t)
  {
    var a: nat, b: nat :| IsPlace(stream, t, a, b) && (later ==> a > 0);
    PartOfStream(text, offset, stream, a, b, t);
  }

  lemma StreamIsPart(file: File, budget: nat)
    ensures
      var stream, offset := Stream(file, budget), Offset(file, budget);
      offset + |stream| <= |file.text| && stream == file.text[offset..offset + |stream|]
  {
  }

  // A line that reading the file can deliver: it starts where a line starts.
  lemma StreamPart(file: File, budget: nat, k: nat)
    requires k < |Tokens(Stream(file, budget))|
    requires Offset(file, budget) > 0 ==> k > 0
    ensures HasPart(file.text, Tokens(Stream(file, budget))[k])
  {
    StreamIsPart(file, budget);
    TokenStands(Stream(file, budget), k);
    StandsInText(file.text, Offset(file, budget), Stream(file, budget), Tokens(Stream(file, budget))[k], k > 0);
  }

  lemma FileLines(q: Query, parse: string -> Option<Moment>, id: string, file: File, budget: nat, l: LogLine)
    requires l in FromFile(q, parse, id, file, budget).lines
    ensures HasPart(file.text, l.line) && Meets(q, parse, id, file.current, l)
  {
    var stream, skip := Stream(file, budget), Offset(file, budget) > 0;
    var lines := Behind(Scan(stream).0, skip);
    KeptMeet(q, parse, id, file.current, lines, l);
    ScanIsPrefix(stream);
    var j: nat :| j < |lines| && lines[j] == l.line;
    StreamPart(file, budget, if skip then j + 1 else j);
  }

  /******* All files *******/

  // The line comes from a file of the source that could be opened, or from the journal.
  ghost predicate ComesFrom(q: Query, parse: string -> Option<Moment>, s: Source, l: LogLine) {
    match s
    case Journal(output) => output.Some? && MeetsJournal(q, l)
    case Files(id, files) =>
      exists f :: f in files && f.readable && HasPart(f.text, l.line) && Meets(q, parse, id, f.current, l)
  }

  lemma {:induction false} FilesLines(q: Query, parse: string -> Option<Moment>, id: string, files: seq<File>, t: Tally, l: LogLine)
    requires t.read <= MAX_LOG_BYTES && l in OverFiles(q, parse, id, files, t).lines
    ensures l in t.lines || ComesFrom(q, parse, Files(id, files), l)
    decreases |files|
  {
    if files != [] && t.read < MAX_LOG_BYTES {
      var rest := files[1..];
      assert forall f :: f in rest ==> f in files;
      if files[0].readable {
        var more := FromFile(q, parse, id, files[0], MAX_LOG_BYTES - t.read);
        FilesLines(q, parse, id, rest, Plus(t, more), l);
        if l in more.lines {
          FileLines(q, parse, id, files[0], MAX_LOG_BYTES - t.read, l);
          assert files[0] in files;
        }
      } else {
        FilesLines(q, parse, id, rest, t, l);
      }
    }
  }

  lemma SourceLines(q: Query, parse: string -> Option<Moment>, s: Source, t: Tally, l: LogLine)
    requires t.read <= MAX_LOG_BYTES && l in OverSource(q, parse, s, t).lines
    ensures l in t.lines || ComesFrom(q, parse, s, l)
  {
    match s
    case Journal(output) =>
      if l !in t.lines {
        var text := output.value;
        var data := if |text| > MAX_LOG_BYTES - t.read then text[..MAX_LOG_BYTES - t.read] else text;
        KeptJournal(q, Split(TrimSuffix(data, '\n'), '\n'), l);
      }
    case Files(id, files) => FilesLines(q, parse, id, files, t, l);
  }

  lemma {:induction false} SourcesLines(q: Query, parse: string -> Option<Moment>, sources: seq<Source>, t: Tally, l: LogLine)
    requires t.read <= MAX_LOG_BYTES && l in OverSources(q, parse, sources, t).lines
    ensures l in t.lines || exists s :: s in sources && ComesFrom(q, parse, s, l)
    decreases |sources|
  {
    if sources != [] {
      SourcesLines(q, parse, sources[1..], OverSource(q, parse, sources[0], t), l);
      if l in OverSource(q, parse, sources[0], t).lines {
        SourceLines(q, parse, sources[0], t, l);
        assert sources[0] in sources;
      }
    }
  }

  lemma {:induction false} WithMembers(s: seq<LogLine>, l: LogLine)
    ensures l in s <==> l in With(s, l.timestamp)
  {
    if s != [] {
      WithMembers(s[1..], l);
    }
  }

  lemma SortedMembers(before: seq<LogLine>, after: seq<LogLine>, l: LogLine)
    requires StableSortOf(before, after)
    ensures l in after <==> l in before
  {
    WithMembers(before, l);
    WithMembers(after, l);
    assert With(after, l.timestamp) == With(before, l.timestamp);
  }

  /** Every answered line comes from the journal or from a file that could be opened, where it stands
      at the start of a line; it passes both filters, and its time lies in the period, or it has none
      and its file is a current one. */
  lemma AnsweredLinesMeet(q: Query, parse: string -> Option<Moment>, sources: seq<Source>, l: LogLine)
    requires l in Answer(q, parse, sources).lines
    ensures exists s :: s in sources && ComesFrom(q, parse, s, l)
  {
    var gathered := OverSources(q, parse, sources, NOTHING).lines;
    SortingIsStable(gathered);
    SortedMembers(gathered, StableSorted(gathered), l);
    SourcesLines(q, parse, sources, NOTHING, l);
  }

  /******* Nothing is missing *******/

  // A whole line of the source meets what was asked.
  ghost predicate Holds(q: Query, parse: string -> Option<Moment>, s: Source, l: LogLine) {
    match s
    case Journal(output) =>
      output.Some? && MeetsJournal(q, l) && l.line in Split(TrimSuffix(output.value, '\n'), '\n')
    case Files(id, files) =>
      exists f :: f in files && f.readable && HasLine(f.text, l.line) && Meets(q, parse, id, f.current, l)
  }

  lemma {:induction false} AllOfFilesHold(q: Query, parse: string -> Option<Moment>, id: string, files: seq<File>, l: LogLine)
    ensures l in AllOfFiles(q, parse, id, files) <==> Holds(q, parse, Files(id, files), l)
  {
    if files != [] {
      var f := files[0];
      AllOfFilesHold(q, parse, id, files[1..], l);
      KeptMeet(q, parse, id, f.current, Tokens(f.text), l);
      TokensAreLines(f.text, l.line);
      assert forall x :: x in files <==> x == f || x in files[1..];
    }
  }

  lemma AllOfHolds(q: Query, parse: string -> Option<Moment>, s: Source, l: LogLine)
    ensures l in AllOf(q, parse, s) <==> Holds(q, parse, s, l)
  {
    match s
    case Journal(None) =>
    case Journal(Some(text)) => KeptJournal(q, Split(TrimSuffix(text, '\n'), '\n'), l);
    case Files(id, files) => AllOfFilesHold(q, parse, id, files, l);
  }

  lemma {:induction false} EverythingHolds(q: Query, parse: string -> Option<Moment>, sources: seq<Source>, l: LogLine)
    ensures l in Everything(q, parse, sources) <==> exists s :: s in sources && Holds(q, parse, s, l)
  {
    if sources != [] {
      EverythingHolds(q, parse, sources[1..], l);
      AllOfHolds(q, parse, sources[0], l);
      assert forall s :: s in sources <==> s == sources[0] || s in sources[1..];
    }
  }

  /** An answer that is not marked as truncated, with lines that fit the scanner, holds exactly the
      whole lines of the sources that meet what was asked. */
  lemma UncutAnswerHoldsExactly(q: Query, parse: string -> Option<Moment>, sources: seq<Source>, l: LogLine)
    requires AllShort(sources) && !Answer(q, parse, sources).truncated
    ensures l in Answer(q, parse, sources).lines <==> exists s :: s in sources && Holds(q, parse, s, l)
  {
    UncutAnswerIsComplete(q, parse, sources);
    SortedMembers(Everything(q, parse, sources), Answer(q, parse, sources).lines, l);
    EverythingHolds(q, parse, sources, l);
  }

  /******* The mark *******/

  // The text of a source that is there to be read.
  function Volume(s: Source): nat {
    match s
    case Journal(output) => if output.Some? then |output.value| else 0
    case Files(_, files) => VolumeOfFiles(files)
  }

  function VolumeOfFiles(files: seq<File>): nat {
    if files == [] then 0 else (if files[0].readable then |files[0].text| else 0) + VolumeOfFiles(files[1..])
  }

  function VolumeOf(sources: seq<Source>): nat {
    if sources == [] then 0 else Volume(sources[0]) + VolumeOf(sources[1..])
  }

  lemma SmallFile(q: Query, parse: string -> Option<Moment>, id: string, file: File, budget: nat)
    requires |file.text| < budget
    ensures FromFile(q, parse, id, file, budget).read <= |file.text| && !FromFile(q, parse, id, file, budget).truncated
  {
    assert Stream(file, budget) == file.text;
  }

  lemma {:induction false} SmallFiles(q: Query, parse: string -> Option<Moment>, id: string, files: seq<File>, t: Tally)
    requires t.read + VolumeOfFiles(files) < MAX_LOG_BYTES && !t.truncated
    ensures var r := OverFiles(q, parse, id, files, t); !r.truncated && r.read <= t.read + VolumeOfFiles(files)
    decreases |files|
  {
    if files != [] {
      if files[0].readable {
        SmallFile(q, parse, id, files[0], MAX_LOG_BYTES - t.read);
        SmallFiles(q, parse, id, files[1..], Plus(t, FromFile(q, parse, id, files[0], MAX_LOG_BYTES - t.read)));
      } else {
        SmallFiles(q, parse, id, files[1..], t);
      }
    }
  }

  lemma {:induction false} SmallSources(q: Query, parse: string -> Option<Moment>, sources: seq<Source>, t: Tally)
    requires t.read + VolumeOf(sources) < MAX_LOG_BYTES && !t.truncated
    ensures !OverSources(q, parse, sources, t).truncated
    decreases |sources|
  {
    if sources != [] {
      if sources[0].Files? {
        SmallFiles(q, parse, sources[0].id, sources[0].files, t);
      }
      SmallSources(q, parse, sources[1..], OverSource(q, parse, sources[0], t));
    }
  }

  /** Sources of less than 8 MiB together give an answer that is marked exactly when more lines meet
      what was asked than were wanted. */
  lemma SmallAnswerIsMarkedExactly(q: Query, parse: string -> Option<Moment>, sources: seq<Source>)
    requires VolumeOf(sources) < 8 * 1024 * 1024 && AllShort(sources)
    ensures Answer(q, parse, sources).truncated <==> |Everything(q, parse, sources)| > q.maxLines
  {
    SmallSources(q, parse, sources, NOTHING);
    UncutSourcesAreWhole(q, parse, sources, NOTHING);
    assert [] + Everything(q, parse, sources) == Everything(q, parse, sources);
  }

  /** The answer is the end of the stable order of all that was gathered: nothing else is cut. */
  lemma AnswerIsTheNewest(q: Query, parse: string -> Option<Moment>, sources: seq<Source>, all: seq<LogLine>)
    requires StableSortOf(OverSources(q, parse, sources, NOTHING).lines, all)
    ensures
      var lines := Answer(q, parse, sources).lines;
      && |lines| == (if |all| < q.maxLines then |all| else q.maxLines)
      && lines == all[|all| - |lines|..]
  {
    AnswerIsTheEndOfTheOrder(q, parse, sources, all);
    assert |all| - q.maxLines == 0 ==> all[0..] == all;
    assert all[|all| - |Last(all, q.maxLines)|..] == Last(all, q.maxLines);
  }
}
