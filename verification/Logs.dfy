/**
 readLogs of internal/gateway/logs.go: lines are gathered from the selected sources
 under one byte budget, put in order and cut to the newest.
 */
module Logs {
  import opened Wrappers
  import opened Text
  import opened Sorting
  import opened Timestamps
  import opened LogOrder

  const MAX_LOG_BYTES := 8 * 1024 * 1024
  const MAX_TOKEN := 1024 * 1024

  /******* Requests and sources *******/

  // The parsed request: the period, the line filters and the number of lines wanted.
  datatype Query = Query(from: Moment, to: Moment, contains: string -> bool, statuses: string -> bool, maxLines: nat)

  // A file of a source: whether it is the current one, whether it could be opened, whether it
  // is compressed, and its (decompressed) text.
  datatype File = File(current: bool, readable: bool, gzip: bool, text: string)

  // What stands behind a selected source. The journal has no text when journalctl fails.
  datatype Source =
    | Journal(output: Option<string>)
    | Files(id: string, files: seq<File>)

  // A line as it is added up: lines so far, bytes read so far, whether anything was cut.
  datatype Tally = Tally(lines: seq<LogLine>, read: nat, truncated: bool)

  /******* Scanning *******/

  function FirstLine(s: string): (line: string)
    ensures line <= s && '\n' !in line && (|line| < |s| ==> s[|line|] == '\n')
  {
    if s == "" || s[0] == '\n' then "" else [s[0]] + FirstLine(s[1..])
  }

  // bufio.ScanLines on one line
  function Token(line: string): string {
    TrimSuffix(line, '\r')
  }

  // All the lines of a text; an empty last one is none.
  function Tokens(s: string): seq<string>
    decreases |s|
  {
    if s == "" then []
    else
      var line := FirstLine(s);
      [Token(line)] + if |line| == |s| then [] else Tokens(s[|line| + 1..])
  }

  // What bufio.Scanner delivers, and the bytes it takes: it stops at a line that does not
  // fit its buffer, which it has filled by then.
  function Scan(s: string): (r: (seq<string>, nat))
    ensures r.1 <= |s|
    decreases |s|
  {
    if s == "" then ([], 0)
    else
      var line := FirstLine(s);
      if |line| >= MAX_TOKEN then ([], MAX_TOKEN)
      else if |line| == |s| then ([Token(line)], |s|)
      else
        var rest := Scan(s[|line| + 1..]);
        ([Token(line)] + rest.0, |line| + 1 + rest.1)
  }

  // Every line fits the scanner's buffer: no stretch of that length is without a line end.
  ghost predicate Short(s: string) {
    forall i :: 0 <= i <= |s| - MAX_TOKEN ==> EndsALine(s, i)
  }

  ghost predicate EndsALine(s: string, i: int)
    requires 0 <= i <= |s| - MAX_TOKEN
  {
    exists k :: i <= k < i + MAX_TOKEN && s[k] == '\n'
  }

  lemma ShortBehind(s: string, n: nat)
    requires n < |s| && n < MAX_TOKEN && s[n] == '\n'
    ensures Short(s) <==> Short(s[n + 1..])
  {
    var rest := s[n + 1..];
    if Short(s) {
      forall i | 0 <= i <= |rest| - MAX_TOKEN
        ensures EndsALine(rest, i)
      {
        assert EndsALine(s, i + n + 1);
        var k :| i + n + 1 <= k < i + n + 1 + MAX_TOKEN && s[k] == '\n';
        assert rest[k - n - 1] == '\n';
      }
    }
    if Short(rest) {
      forall i | 0 <= i <= |s| - MAX_TOKEN
        ensures EndsALine(s, i)
      {
        if i <= n {
          assert s[n] == '\n';
        } else {
          assert EndsALine(rest, i - n - 1);
          var k :| i - n - 1 <= k < i - n - 1 + MAX_TOKEN && rest[k] == '\n';
          assert s[k + n + 1] == '\n';
        }
      }
    }
  }

  /** The scanner delivers every line exactly when every line fits its buffer. */
  lemma {:induction false} ScanIsWholeExactly(s: string)
    ensures Scan(s).0 == Tokens(s) <==> Short(s)
    ensures |Scan(s).0| <= |Tokens(s)|
    ensures Short(s) ==> Scan(s).1 == |s|
    decreases |s|
  {
    if s != "" {
      var line := FirstLine(s);
      if |line| >= MAX_TOKEN {
        assert !EndsALine(s, 0);
      } else if |line| < |s| {
        var rest := s[|line| + 1..];
        ScanIsWholeExactly(rest);
        ShortBehind(s, |line|);
        assert ([Token(line)] + Scan(rest).0)[1..] == Scan(rest).0 && ([Token(line)] + Tokens(rest))[1..] == Tokens(rest);
      }
    }
  }

  /******* One file *******/

  predicate Before(a: Moment, b: Moment) {
    Seconds(a) < Seconds(b)
  }

  // parseLogTime is `parse`; None where it finds no time.
  predicate Admits(q: Query, parse: string -> Option<Moment>, current: bool, line: string) {
    var at := parse(line);
    && (at.Some? ==> !Before(at.value, q.from) && !Before(q.to, at.value))
    && (at.None? ==> current)
    && q.contains(line) && q.statuses(line)
  }

  function Entry(parse: string -> Option<Moment>, id: string, line: string): LogLine {
    match parse(line)
    case None => LogLine(id, "", true, line)
    case Some(at) => LogLine(id, Format(at), false, line)
  }

  // What becomes of a scanned line.
  function FileFilter(q: Query, parse: string -> Option<Moment>, id: string, current: bool): string -> Option<LogLine> {
    line => if Admits(q, parse, current, line) then Some(Entry(parse, id, line)) else None
  }

  function One(filter: string -> Option<LogLine>, line: string): seq<LogLine> {
    match filter(line) case Some(l) => [l] case None => []
  }

  // The lines a filter lets through.
  function Kept(filter: string -> Option<LogLine>, lines: seq<string>): seq<LogLine> {
    if lines == [] then []
    else One(filter, lines[0]) + Kept(filter, lines[1..])
  }

  // Where reading starts: a plain file larger than the budget is read from its end.
  function Offset(file: File, budget: nat): nat {
    if !file.gzip && |file.text| > budget then |file.text| - budget else 0
  }

  // The bytes within the budget.
  function Stream(file: File, budget: nat): (s: string)
    ensures |s| <= budget
  {
    var tail := file.text[Offset(file, budget)..];
    if |tail| > budget then tail[..budget] else tail
  }

  function Behind(lines: seq<string>, skip: bool): seq<string> {
    if skip && lines != [] then lines[1..] else lines
  }

  // readLogFile
  function FromFile(q: Query, parse: string -> Option<Moment>, id: string, file: File, budget: nat): (t: Tally)
    ensures t.read <= budget
  {
    var scanned := Scan(Stream(file, budget));
    Tally(Kept(FileFilter(q, parse, id, file.current), Behind(scanned.0, Offset(file, budget) > 0)), scanned.1, scanned.1 == budget)
  }

  lemma {:induction false} KeptOneMore(filter: string -> Option<LogLine>, lines: seq<string>, line: string)
    ensures Kept(filter, lines + [line]) == Kept(filter, lines) + One(filter, line)
  {
    if lines == [] {
      assert lines + [line] == [line] && [line][1..] == [];
    } else {
      assert (lines + [line])[0] == lines[0] && (lines + [line])[1..] == lines[1..] + [line];
      KeptOneMore(filter, lines[1..], line);
    }
  }

  lemma KeptUpTo(filter: string -> Option<LogLine>, texts: seq<string>, i: nat, skip: bool)
    requires i < |texts|
    ensures Kept(filter, Behind(texts[..i + 1], skip)) ==
      if skip && i == 0 then [] else Kept(filter, Behind(texts[..i], skip)) + One(filter, texts[i])
  {
    if skip && i == 0 {
      assert texts[..1][1..] == [];
    } else {
      assert Behind(texts[..i + 1], skip) == Behind(texts[..i], skip) + [texts[i]];
      KeptOneMore(filter, Behind(texts[..i], skip), texts[i]);
    }
  }

  // The loop over the lines; the first one is incomplete when reading started behind its start.
  method KeepLines(filter: string -> Option<LogLine>, texts: seq<string>, skipFirst: bool) returns (lines: seq<LogLine>)
    ensures lines == Kept(filter, Behind(texts, skipFirst))
  {
    var skip := skipFirst;
    lines := [];
    var i := 0;
    while i < |texts|
      invariant 0 <= i <= |texts| && skip == (skipFirst && i == 0)
      invariant lines == Kept(filter, Behind(texts[..i], skipFirst))
    {
      KeptUpTo(filter, texts, i, skipFirst);
      if skip {
        skip := false;
      } else {
        lines := lines + One(filter, texts[i]);
      }
      i := i + 1;
    }
    assert texts[..i] == texts;
  }

  method ReadLogFile(q: Query, parse: string -> Option<Moment>, id: string, file: File, budget: nat) returns (t: Tally)
    ensures t == FromFile(q, parse, id, file, budget)
  {
    var scanned := Scan(Stream(file, budget));
    var lines := KeepLines(FileFilter(q, parse, id, file.current), scanned.0, Offset(file, budget) > 0);
    return Tally(lines, scanned.1, scanned.1 == budget);
  }

  /******* All sources *******/

  // readNodeJournal
  function FromJournal(q: Query, output: Option<string>, budget: nat): (t: Tally)
    ensures t.read <= budget
  {
    if budget == 0 then Tally([], 0, true)
    else match output
      case None => Tally([], 0, false)
      case Some(text) =>
        var data := if |text| > budget then text[..budget] else text;
        Tally(Kept(JournalFilter(q), Split(TrimSuffix(data, '\n'), '\n')), |data|, |text| > budget)
  }

  function JournalFilter(q: Query): string -> Option<LogLine> {
    line => if line != "" && q.contains(line) then Some(LogLine("node_runtime", "", false, line)) else None
  }

  function Plus(t: Tally, more: Tally): Tally {
    Tally(t.lines + more.lines, t.read + more.read, t.truncated || more.truncated)
  }

  // The files of one source, while the budget lasts.
  function OverFiles(q: Query, parse: string -> Option<Moment>, id: string, files: seq<File>, t: Tally): (r: Tally)
    requires t.read <= MAX_LOG_BYTES
    ensures r.read <= MAX_LOG_BYTES
    decreases |files|
  {
    if files == [] then t
    else if t.read >= MAX_LOG_BYTES then t.(truncated := true)
    else if !files[0].readable then OverFiles(q, parse, id, files[1..], t)
    else OverFiles(q, parse, id, files[1..], Plus(t, FromFile(q, parse, id, files[0], MAX_LOG_BYTES - t.read)))
  }

  function OverSource(q: Query, parse: string -> Option<Moment>, source: Source, t: Tally): (r: Tally)
    requires t.read <= MAX_LOG_BYTES
    ensures r.read <= MAX_LOG_BYTES
  {
    match source
    case Journal(output) => Plus(t, FromJournal(q, output, MAX_LOG_BYTES - t.read))
    case Files(id, files) => OverFiles(q, parse, id, files, t)
  }

  function OverSources(q: Query, parse: string -> Option<Moment>, sources: seq<Source>, t: Tally): (r: Tally)
    requires t.read <= MAX_LOG_BYTES
    ensures r.read <= MAX_LOG_BYTES
    decreases |sources|
  {
    if sources == [] then t
    else OverSources(q, parse, sources[1..], OverSource(q, parse, sources[0], t))
  }

  function Last(lines: seq<LogLine>, n: nat): seq<LogLine> {
    if |lines| > n then lines[|lines| - n..] else lines
  }

  const NOTHING := Tally([], 0, false)

  // The result: the newest lines of the stable order.
  function Answer(q: Query, parse: string -> Option<Moment>, sources: seq<Source>): Tally
  {
    var t := OverSources(q, parse, sources, NOTHING);
    Tally(Last(StableSorted(t.lines), q.maxLines), t.read, t.truncated || |t.lines| > q.maxLines)
  }

  method ReadNodeJournal(q: Query, output: Option<string>, budget: nat) returns (t: Tally)
    ensures t == FromJournal(q, output, budget)
  {
    if budget == 0 {
      return Tally([], 0, true);
    }
    if output.None? {
      return NOTHING;
    }
    var data, truncated := output.value, |output.value| > budget;
    if truncated {
      data := data[..budget];
    }
    var lines := KeepLines(JournalFilter(q), Split(TrimSuffix(data, '\n'), '\n'), false);
    return Tally(lines, |data|, truncated);
  }

  method ReadFiles(q: Query, parse: string -> Option<Moment>, id: string, files: seq<File>, before: Tally) returns (result: Tally)
    requires before.read <= MAX_LOG_BYTES
    ensures result == OverFiles(q, parse, id, files, before)
  {
    result := before;
    var j := 0;
    while j < |files| && result.read < MAX_LOG_BYTES
      invariant 0 <= j <= |files| && result.read <= MAX_LOG_BYTES
      invariant OverFiles(q, parse, id, files[j..], result) == OverFiles(q, parse, id, files, before)
    {
      if files[j].readable {
        var more := ReadLogFile(q, parse, id, files[j], MAX_LOG_BYTES - result.read);
        result := Plus(result, more);
      }
      j := j + 1;
    }
    if j < |files| {
      result := result.(truncated := true);
    }
  }

  method ReadSource(q: Query, parse: string -> Option<Moment>, source: Source, before: Tally) returns (result: Tally)
    requires before.read <= MAX_LOG_BYTES
    ensures result == OverSource(q, parse, source, before)
  {
    match source {
      case Journal(output) =>
        var more := ReadNodeJournal(q, output, MAX_LOG_BYTES - before.read);
        result := Plus(before, more);
      case Files(id, files) =>
        result := ReadFiles(q, parse, id, files, before);
    }
  }

  lemma OneSourceMore(q: Query, parse: string -> Option<Moment>, sources: seq<Source>, i: nat, t: Tally)
    requires i < |sources| && t.read <= MAX_LOG_BYTES
    ensures OverSources(q, parse, sources[i..], t) == OverSources(q, parse, sources[i + 1..], OverSource(q, parse, sources[i], t))
  {
    assert sources[i..][1..] == sources[i + 1..];
  }

  method ReadSources(q: Query, parse: string -> Option<Moment>, sources: seq<Source>) returns (result: Tally)
    ensures result == OverSources(q, parse, sources, NOTHING)
  {
    result := NOTHING;
    var i := 0;
    while i < |sources|
      invariant 0 <= i <= |sources| && result.read <= MAX_LOG_BYTES
      invariant OverSources(q, parse, sources[i..], result) == OverSources(q, parse, sources, NOTHING)
    {
      OneSourceMore(q, parse, sources, i, result);
      result := ReadSource(q, parse, sources[i], result);
      i := i + 1;
    }
    assert sources[i..] == [];
  }

  method ReadLogs(q: Query, parse: string -> Option<Moment>, sources: seq<Source>) returns (result: Tally)
    ensures result == Answer(q, parse, sources)
  {
    result := ReadSources(q, parse, sources);
    SortingKeepsLength(result.lines);
    result := result.(lines := StableSorted(result.lines));
    if |result.lines| > q.maxLines {
      result := Tally(result.lines[|result.lines| - q.maxLines..], result.read, true);
    }
  }

  lemma {:induction false} InsertingAddsOne(s: seq<LogLine>, x: LogLine)
    ensures |Inserted(s, x)| == |s| + 1
  {
    if s != [] && Less(s[0], x) {
      InsertingAddsOne(s[1..], x);
    }
  }

  lemma {:induction false} SortingKeepsLength(s: seq<LogLine>)
    ensures |StableSorted(s)| == |s|
  {
    if s != [] {
      SortingKeepsLength(s[1..]);
      InsertingAddsOne(StableSorted(s[1..]), s[0]);
    }
  }

  /******* What a caller gets *******/

  // Everything a source has to say, without a budget.
  function AllOfFiles(q: Query, parse: string -> Option<Moment>, id: string, files: seq<File>): seq<LogLine>
  {
    if files == [] then []
    else (if files[0].readable then Kept(FileFilter(q, parse, id, files[0].current), Tokens(files[0].text)) else [])
         + AllOfFiles(q, parse, id, files[1..])
  }

  function AllOf(q: Query, parse: string -> Option<Moment>, source: Source): seq<LogLine>
  {
    match source
    case Journal(None) => []
    case Journal(Some(text)) => Kept(JournalFilter(q), Split(TrimSuffix(text, '\n'), '\n'))
    case Files(id, files) => AllOfFiles(q, parse, id, files)
  }

  function Everything(q: Query, parse: string -> Option<Moment>, sources: seq<Source>): seq<LogLine>
  {
    if sources == [] then [] else AllOf(q, parse, sources[0]) + Everything(q, parse, sources[1..])
  }

  // No file has a line too long for the scanner.
  ghost predicate AllShort(sources: seq<Source>) {
    forall s :: s in sources && s.Files? ==> forall f :: f in s.files && f.readable ==> Short(f.text)
  }

  lemma ShortPart(s: string, a: nat, b: nat)
    requires Short(s) && a <= b <= |s|
    ensures Short(s[a..b])
  {
    forall i | 0 <= i <= |s[a..b]| - MAX_TOKEN
      ensures EndsALine(s[a..b], i)
    {
      assert EndsALine(s, i + a);
      var k :| i + a <= k < i + a + MAX_TOKEN && s[k] == '\n';
      assert s[a..b][k - a] == '\n';
    }
  }

  lemma UncutFileIsWhole(q: Query, parse: string -> Option<Moment>, id: string, file: File, budget: nat)
    requires Short(file.text) && !FromFile(q, parse, id, file, budget).truncated
    ensures FromFile(q, parse, id, file, budget).lines == Kept(FileFilter(q, parse, id, file.current), Tokens(file.text))
  {
    var stream, offset := Stream(file, budget), Offset(file, budget);
    var end := offset + |stream|;
    assert stream == file.text[offset..end];
    ShortPart(file.text, offset, end);
    ScanIsWholeExactly(stream);
    assert |stream| != budget;
    assert stream == file.text;
  }

  lemma Regrouped(a: seq<LogLine>, b: seq<LogLine>, c: seq<LogLine>)
    ensures a + b + c == a + (b + c) && a + [] == a && [] + a == a
  {
  }

  lemma {:induction false} UncutFilesAreWhole(q: Query, parse: string -> Option<Moment>, id: string, files: seq<File>, t: Tally)
    requires t.read <= MAX_LOG_BYTES
    requires forall f :: f in files && f.readable ==> Short(f.text)
    requires !OverFiles(q, parse, id, files, t).truncated
    ensures !t.truncated
    ensures OverFiles(q, parse, id, files, t).lines == t.lines + AllOfFiles(q, parse, id, files)
    decreases |files|
  {
    if files == [] {
    } else if files[0].readable {
      assert files[0] in files;
      var budget := MAX_LOG_BYTES - t.read;
      var more := FromFile(q, parse, id, files[0], budget);
      var all := OverFiles(q, parse, id, files[1..], Plus(t, more));
      assert all == OverFiles(q, parse, id, files, t);
      UncutFilesAreWhole(q, parse, id, files[1..], Plus(t, more));
      UncutFileIsWhole(q, parse, id, files[0], budget);
      Regrouped(t.lines, more.lines, AllOfFiles(q, parse, id, files[1..]));
    } else {
      UncutFilesAreWhole(q, parse, id, files[1..], t);
      Regrouped(AllOfFiles(q, parse, id, files[1..]), [], []);
    }
  }

  lemma UncutSourceIsWhole(q: Query, parse: string -> Option<Moment>, source: Source, t: Tally)
    requires t.read <= MAX_LOG_BYTES
    requires source.Files? ==> forall f :: f in source.files && f.readable ==> Short(f.text)
    requires !OverSource(q, parse, source, t).truncated
    ensures !t.truncated && OverSource(q, parse, source, t).lines == t.lines + AllOf(q, parse, source)
  {
    if source.Files? {
      UncutFilesAreWhole(q, parse, source.id, source.files, t);
    }
  }

  lemma {:induction false} UncutSourcesAreWhole(q: Query, parse: string -> Option<Moment>, sources: seq<Source>, t: Tally)
    requires t.read <= MAX_LOG_BYTES && AllShort(sources)
    requires !OverSources(q, parse, sources, t).truncated
    ensures !t.truncated && OverSources(q, parse, sources, t).lines == t.lines + Everything(q, parse, sources)
    decreases |sources|
  {
    if sources == [] {
      assert t.lines + [] == t.lines;
    } else {
      assert sources[0] in sources;
      var next := OverSource(q, parse, sources[0], t);
      assert OverSources(q, parse, sources, t) == OverSources(q, parse, sources[1..], next);
      UncutSourcesAreWhole(q, parse, sources[1..], next);
      UncutSourceIsWhole(q, parse, sources[0], t);
      Regrouped(t.lines, AllOf(q, parse, sources[0]), Everything(q, parse, sources[1..]));
    }
  }

  /** An answer that is not marked as truncated holds every admitted line of every source that could
      be read, in the stable order; a marked one never counts more bytes than the budget. */
  lemma UncutAnswerIsComplete(q: Query, parse: string -> Option<Moment>, sources: seq<Source>)
    ensures Answer(q, parse, sources).read <= MAX_LOG_BYTES && |Answer(q, parse, sources).lines| <= q.maxLines
    ensures AllShort(sources) && !Answer(q, parse, sources).truncated ==>
      StableSortOf(Everything(q, parse, sources), Answer(q, parse, sources).lines)
  {
    var t := OverSources(q, parse, sources, NOTHING);
    SortingKeepsLength(t.lines);
    if AllShort(sources) && !Answer(q, parse, sources).truncated {
      UncutSourcesAreWhole(q, parse, sources, NOTHING);
      assert [] + Everything(q, parse, sources) == Everything(q, parse, sources);
      SortingIsStable(t.lines);
    }
  }

  /** A line too long for the scanner ends its file: it and all that follow are left out, and the
      answer is not marked. */
  lemma LongLineHidesTheRest(q: Query, parse: string -> Option<Moment>, id: string, current: bool, long: string, rest: string, budget: nat)
    requires '\n' !in long && |long| >= MAX_TOKEN && |long| + 1 + |rest| <= budget
    ensures var file := File(current, true, false, long + "\n" + rest);
      FromFile(q, parse, id, file, budget) == Tally([], MAX_TOKEN, false)
  {
    var text := long + "\n" + rest;
    var file := File(current, true, false, text);
    assert Stream(file, budget) == text;
    FirstLineIs(long, rest);
  }

  lemma {:induction false} FirstLineIs(line: string, rest: string)
    requires '\n' !in line
    ensures FirstLine(line + "\n" + rest) == line
  {
    var s := line + "\n" + rest;
    if line != "" {
      assert s[0] == line[0] && s[0] in line && s[1..] == line[1..] + "\n" + rest;
      FirstLineIs(line[1..], rest);
      assert [line[0]] + line[1..] == line;
    }
  }

  /** Whatever stable sort is used, the answer is the last lines of what it delivers. */
  lemma AnswerIsTheEndOfTheOrder(q: Query, parse: string -> Option<Moment>, sources: seq<Source>, all: seq<LogLine>)
    requires StableSortOf(OverSources(q, parse, sources, NOTHING).lines, all)
    ensures Answer(q, parse, sources).lines == Last(all, q.maxLines)
  {
    StableSortedIsTheOnlyOne(OverSources(q, parse, sources, NOTHING).lines, all);
  }

  lemma NotLessIsNotEarlier(x: LogLine, y: LogLine, a: Moment, b: Moment)
    requires !Less(y, x)
    ensures x.timestamp == "" ==> y.timestamp == ""
    ensures x.timestamp == Format(a) && y.timestamp == Format(b) ==> Seconds(a) <= Seconds(b)
  {
    TextOrderIsTimeOrder(b, a);
  }

  lemma LastKeepsOrder(all: seq<LogLine>, n: nat)
    requires InOrder(all)
    ensures InOrder(Last(all, n))
  {
  }

  /** Lines with a known time come first, and later lines are not earlier in time. */
  lemma AnswerIsInTimeOrder(q: Query, parse: string -> Option<Moment>, sources: seq<Source>, i: nat, j: nat, a: Moment, b: Moment)
    requires i < j < |Answer(q, parse, sources).lines|
    ensures var x, y := Answer(q, parse, sources).lines[i].timestamp, Answer(q, parse, sources).lines[j].timestamp;
      (x == "" ==> y == "") && (x == Format(a) && y == Format(b) ==> Seconds(a) <= Seconds(b))
  {
    var gathered := OverSources(q, parse, sources, NOTHING).lines;
    var lines := Answer(q, parse, sources).lines;
    SortingIsStable(gathered);
    LastKeepsOrder(StableSorted(gathered), q.maxLines);
    NotLessIsNotEarlier(lines[i], lines[j], a, b);
  }

  /******* sourceSelection *******/

  datatype LogSource = LogSource(id: string, kind: string, rotated: bool)

  const DEFAULT_SOURCES := ["nginx_access", "nginx_error", "php_error"]

  // A requested source, by its id or, for application logs, by its kind.
  predicate Wanted(want: set<string>, s: LogSource) {
    s.id in want || ("app" in want && s.kind == "app")
  }

  predicate Candidate(want: set<string>, s: LogSource, id: string) {
    Wanted(want, s) && s.id == id
  }

  // The j-th source is the first of its id among those in use if there are any, else the first of its id.
  ghost predicate Chosen(want: set<string>, available: seq<LogSource>, j: int) {
    && 0 <= j < |available| && Wanted(want, available[j])
    && forall k :: 0 <= k < |available| && Candidate(want, available[k], available[j].id) ==>
      && (available[j].rotated ==> available[k].rotated)
      && (k < j ==> available[k].rotated != available[j].rotated)
  }

  ghost predicate Selects(want: set<string>, available: seq<LogSource>, selected: map<string, LogSource>) {
    && (forall s :: s in available && Wanted(want, s) ==> s.id in selected)
    && (forall id :: id in selected ==> selected[id].id == id && exists j :: Chosen(want, available, j) && available[j] == selected[id])
  }

  lemma OneMoreSource(want: set<string>, available: seq<LogSource>, selected: map<string, LogSource>, s: LogSource)
    requires Selects(want, available, selected)
    ensures Selects(want, available + [s],
      if Wanted(want, s) && (s.id !in selected || (selected[s.id].rotated && !s.rotated)) then selected[s.id := s] else selected)
  {
    var more := available + [s];
    var next := if Wanted(want, s) && (s.id !in selected || (selected[s.id].rotated && !s.rotated)) then selected[s.id := s] else selected;
    forall id | id in next
      ensures next[id].id == id && exists j :: Chosen(want, more, j) && more[j] == next[id]
    {
      if id in selected && next[id] == selected[id] {
        var j :| Chosen(want, available, j) && available[j] == selected[id];
        assert Chosen(want, more, j) && more[j] == next[id];
      } else {
        assert next[id] == s;
        if id in selected {
          var j :| Chosen(want, available, j) && available[j] == selected[id];
        }
        assert Chosen(want, more, |available|) && more[|available|] == s;
      }
    }
  }

  // The chosen sources in the order of their ids.
  ghost predicate Selection(want: set<string>, available: seq<LogSource>, out: seq<LogSource>) {
    && (forall s :: s in available && Wanted(want, s) ==> exists o :: o in out && o.id == s.id)
    && (forall o :: o in out ==> exists j :: Chosen(want, available, j) && available[j] == o)
    && (forall i, j :: 0 <= i < j < |out| ==> Below(out[i].id, out[j].id))
  }

  // The map's values, in the order of the given keys.
  function InKeyOrder(ids: seq<string>, selected: map<string, LogSource>): seq<LogSource>
    requires forall id :: id in ids ==> id in selected
  {
    seq(|ids|, k requires 0 <= k < |ids| => selected[ids[k]])
  }

  lemma KeyOrderIsASelection(want: set<string>, available: seq<LogSource>, ids: seq<string>, selected: map<string, LogSource>)
    requires Selects(want, available, selected) && Ascending(ids) && forall id :: id in ids <==> id in selected
    ensures Selection(want, available, InKeyOrder(ids, selected))
  {
    var out := InKeyOrder(ids, selected);
    forall s | s in available && Wanted(want, s)
      ensures exists o :: o in out && o.id == s.id
    {
      assert s.id in ids;
      var k :| 0 <= k < |ids| && ids[k] == s.id;
      assert out[k] in out;
    }
    forall o | o in out
      ensures exists j :: Chosen(want, available, j) && available[j] == o
    {
      var k :| 0 <= k < |ids| && o == selected[ids[k]];
      assert ids[k] in selected;
    }
    forall i, j | 0 <= i < j < |out|
      ensures Below(out[i].id, out[j].id)
    {
      assert ids[i] in selected && ids[j] in selected;
    }
  }

  /** One source for each requested id, in the order of the ids: the first of that id that is still
      in use, or the first of all when only rotated ones are left. */
  method SourceSelection(want: seq<string>, available: seq<LogSource>) returns (out: seq<LogSource>)
    ensures Selection(Elements(if want == [] then DEFAULT_SOURCES else want), available, out)
  {
    var wanted := Elements(if want == [] then DEFAULT_SOURCES else want);
    var selected: map<string, LogSource> := map[];
    var i := 0;
    while i < |available|
      invariant 0 <= i <= |available|
      invariant Selects(wanted, available[..i], selected)
    {
      var s := available[i];
      OneMoreSource(wanted, available[..i], selected, s);
      assert available[..i + 1] == available[..i] + [s];
      if Wanted(wanted, s) {
        if s.id !in selected || (selected[s.id].rotated && !s.rotated) {
          selected := selected[s.id := s];
        }
      }
      i := i + 1;
    }
    assert available[..i] == available;
    var ids := SortedSet(selected.Keys);
    assert forall k :: k in ids <==> k in Elements(ids);
    KeyOrderIsASelection(wanted, available, ids, selected);
    out := InKeyOrder(ids, selected);
  }
}
