/**
 The five schedule fields and the crontab file of internal/gateway/cron.go: which
 fields are accepted, what they denote, and that the rendered file reads back as
 the jobs it was rendered from.
 */
module Crontab {
  import opened Wrappers
  import opened Numbers
  import opened Text

  predicate ValidCronNumber(v: string, min: int, max: int) {
    v != "" && |v| <= 2 && Atoi(v).Some? && min <= Atoi(v).value <= max
  }

  /******* validCronField *******/

  predicate ValidBase(base: string, min: int, max: int) {
    if base == "*" then true
    else if Count(base, '-') > 1 then false
    else if '-' in base then
      var p := Split(base, '-');
      && |p| == 2 && ValidCronNumber(p[0], min, max) && ValidCronNumber(p[1], min, max)
      && Atoi(p[0]).value <= Atoi(p[1]).value
    else ValidCronNumber(base, min, max)
  }

  predicate ValidItem(item: string, min: int, max: int) {
    if Count(item, '/') > 1 then false
    else if '/' in item then
      var p := Split(item, '/');
      |p| == 2 && ValidCronNumber(p[1], 1, max - min + 1) && ValidBase(p[0], min, max)
    else ValidBase(item, min, max)
  }

  const MAX_FIELD := 16

  predicate Blank(c: char) {
    c == ' ' || c == '\t' || c == '\r' || c == '\n' || c == '@'
  }

  predicate ValidCronField(v: string, min: int, max: int) {
    && v != "" && |v| <= MAX_FIELD && (forall i :: 0 <= i < |v| ==> !Blank(v[i]))
    && forall i :: 0 <= i < |Split(v, ',')| ==> ValidItem(Split(v, ',')[i], min, max)
  }

  /******* What a field means *******/

  datatype Base = Star | One(n: int) | Span(low: int, high: int)

  // `step` None stands for an item without a slash.
  datatype Item = Item(base: Base, step: Option<int>)

  // A number as the grammar writes it: one or two characters, no minus sign.
  ghost predicate Reads(t: string, n: int) {
    1 <= |t| <= 2 && '-' !in t && Atoi(t) == Some(n)
  }

  ghost predicate BaseReads(t: string, b: Base) {
    match b
    case Star => t == "*"
    case One(n) => Reads(t, n)
    case Span(a, z) => exists x, y :: t == x + ['-'] + y && Reads(x, a) && Reads(y, z)
  }

  ghost predicate ItemReads(t: string, item: Item) {
    match item.step
    case None => '/' !in t && BaseReads(t, item.base)
    case Some(k) => exists x, y :: t == x + ['/'] + y && '/' !in x && '/' !in y && BaseReads(x, item.base) && Reads(y, k)
  }

  predicate WithinBounds(item: Item, min: int, max: int) {
    && (match item.base
        case Star => true
        case One(n) => min <= n <= max
        case Span(a, z) => min <= a <= z <= max)
    && (item.step.Some? ==> 1 <= item.step.value <= max - min + 1)
  }

  function Lowest(b: Base, min: int): int {
    match b case Star => min case One(n) => n case Span(a, _) => a
  }

  function Highest(b: Base, max: int): int {
    match b case Star => max case One(n) => n case Span(_, z) => z
  }

  predicate Selects(item: Item, min: int, max: int, x: int)
    requires WithinBounds(item, min, max)
  {
    var step := if item.step.Some? then item.step.value else 1;
    Lowest(item.base, min) <= x <= Highest(item.base, max) && (x - Lowest(item.base, min)) % step == 0
  }

  // The comma-separated list `items` is what the field text says.
  ghost predicate FieldReads(v: string, items: seq<Item>, min: int, max: int) {
    && |Split(v, ',')| == |items|
    && forall i :: 0 <= i < |items| ==> ItemReads(Split(v, ',')[i], items[i]) && WithinBounds(items[i], min, max)
  }

  lemma TwoParts(s: string, c: char)
    requires Count(s, c) == 1
    ensures |Split(s, c)| == 2
    ensures c !in Split(s, c)[0] && c !in Split(s, c)[1]
    ensures s == Split(s, c)[0] + [c] + Split(s, c)[1]
  {
    CountSplit(s, c);
    JoinSplit(s, c);
    var p := Split(s, c);
    assert p[0] in p && p[1] in p && p == [p[0], p[1]];
    assert Join(p, c) == p[0] + [c] + Join(p[1..], c);
  }

  lemma TwoPartsBack(x: string, c: char, y: string)
    requires c !in x && c !in y
    ensures Count(x + [c] + y, c) == 1 && Split(x + [c] + y, c) == [x, y] && c in x + [c] + y
  {
    SplitFirst(x, c, y);
    SplitPlain(y, c);
    CountSplit(x + [c] + y, c);
    assert (x + [c] + y)[|x|] == c;
  }

  function BaseOf(base: string): Base {
    if base == "*" then Star
    else if Count(base, '-') == 1 && |Split(base, '-')| == 2 then
      var p := Split(base, '-');
      Span(if Atoi(p[0]).Some? then Atoi(p[0]).value else 0, if Atoi(p[1]).Some? then Atoi(p[1]).value else 0)
    else One(if Atoi(base).Some? then Atoi(base).value else 0)
  }

  lemma BaseExactly(base: string, min: int, max: int)
    requires min >= 0
    ensures ValidBase(base, min, max) ==>
      BaseReads(base, BaseOf(base)) && WithinBounds(Item(BaseOf(base), None), min, max)
    ensures forall b :: BaseReads(base, b) && WithinBounds(Item(b, None), min, max) ==> ValidBase(base, min, max)
  {
    CountSplit(base, '-');
    if ValidBase(base, min, max) && base != "*" && '-' in base {
      TwoParts(base, '-');
      var p := Split(base, '-');
      assert Reads(p[0], Atoi(p[0]).value) && Reads(p[1], Atoi(p[1]).value);
    }
    forall b | BaseReads(base, b) && WithinBounds(Item(b, None), min, max)
      ensures ValidBase(base, min, max)
    {
      if b.Span? {
        var x, y :| base == x + ['-'] + y && Reads(x, b.low) && Reads(y, b.high);
        TwoPartsBack(x, '-', y);
      }
    }
  }

  function ItemOf(item: string): Item {
    if Count(item, '/') == 1 && |Split(item, '/')| == 2 then
      var p := Split(item, '/');
      Item(BaseOf(p[0]), Some(if Atoi(p[1]).Some? then Atoi(p[1]).value else 0))
    else Item(BaseOf(item), None)
  }

  lemma StepReads(v: string, max: int)
    requires ValidCronNumber(v, 1, max)
    ensures Reads(v, Atoi(v).value)
  {
    assert forall i :: 0 <= i < |v| ==> v[i] != '-';
  }

  lemma ItemExactly(item: string, min: int, max: int)
    requires 0 <= min <= max
    ensures ValidItem(item, min, max) ==> ItemReads(item, ItemOf(item)) && WithinBounds(ItemOf(item), min, max)
    ensures forall it :: ItemReads(item, it) && WithinBounds(it, min, max) ==> ValidItem(item, min, max)
  {
    CountSplit(item, '/');
    if ValidItem(item, min, max) {
      if '/' in item {
        TwoParts(item, '/');
        var p := Split(item, '/');
        BaseExactly(p[0], min, max);
        StepReads(p[1], max - min + 1);
      } else {
        BaseExactly(item, min, max);
      }
    }
    forall it | ItemReads(item, it) && WithinBounds(it, min, max)
      ensures ValidItem(item, min, max)
    {
      if it.step.Some? {
        var x, y :| item == x + ['/'] + y && '/' !in x && '/' !in y && BaseReads(x, it.base) && Reads(y, it.step.value);
        TwoPartsBack(x, '/', y);
        BaseExactly(x, min, max);
        assert WithinBounds(Item(it.base, None), min, max);
      } else {
        BaseExactly(item, min, max);
        assert WithinBounds(Item(it.base, None), min, max);
      }
    }
  }

  /** A field is accepted exactly when it is 1 to 16 characters without blanks or '@' and its
      comma-separated parts are in the item grammar with every number and step in bounds. */
  lemma AcceptsExactlyTheGrammar(v: string, min: int, max: int)
    requires 0 <= min <= max
    ensures ValidCronField(v, min, max) <==>
      && 1 <= |v| <= MAX_FIELD && (forall i :: 0 <= i < |v| ==> !Blank(v[i]))
      && exists items :: FieldReads(v, items, min, max)
  {
    var parts := Split(v, ',');
    if ValidCronField(v, min, max) {
      var items := seq(|parts|, i requires 0 <= i < |parts| => ItemOf(parts[i]));
      forall i | 0 <= i < |items|
        ensures ItemReads(parts[i], items[i]) && WithinBounds(items[i], min, max)
      {
        ItemExactly(parts[i], min, max);
      }
      assert FieldReads(v, items, min, max);
    }
    if 1 <= |v| <= MAX_FIELD && (forall i :: 0 <= i < |v| ==> !Blank(v[i])) && exists items :: FieldReads(v, items, min, max) {
      var items :| FieldReads(v, items, min, max);
      forall i | 0 <= i < |parts|
        ensures ValidItem(parts[i], min, max)
      {
        assert ItemReads(parts[i], items[i]) && WithinBounds(items[i], min, max);
        ItemExactly(parts[i], min, max);
      }
    }
  }

  /** Every item of an accepted field selects at least one value, and only values within the bounds. */
  lemma ItemsSelectWithinBounds(v: string, items: seq<Item>, min: int, max: int, i: nat)
    requires min <= max && FieldReads(v, items, min, max) && i < |items|
    ensures WithinBounds(items[i], min, max)
    ensures exists x :: Selects(items[i], min, max, x)
    ensures forall x :: Selects(items[i], min, max, x) ==> min <= x <= max
  {
    assert ItemReads(Split(v, ',')[i], items[i]) && WithinBounds(items[i], min, max);
    assert Selects(items[i], min, max, Lowest(items[i].base, min));
  }

  /******* The file *******/

  datatype Line = Line(minute: string, hour: string, day: string, month: string, weekday: string, user: string, command: string)

  const HEADER := "MAILTO=\"\"\n"

  // The parts of a line in the order they are written.
  function Parts(l: Line): seq<string> {
    [l.minute, l.hour, l.day, l.month, l.weekday, l.user, l.command]
  }

  function RenderLine(l: Line): string {
    Join(Parts(l), ' ') + "\n"
  }

  function RenderLines(lines: seq<Line>): string {
    if lines == [] then "" else RenderLine(lines[0]) + RenderLines(lines[1..])
  }

  function RenderCronFile(lines: seq<Line>): string {
    HEADER + RenderLines(lines)
  }

  // The six blank-separated fields in front of the command.
  function Leading(s: string, n: nat): Option<(seq<string>, string)>
    decreases n
  {
    if n == 0 then Some(([], s))
    else
      var at := Index(s, " ");
      if at.None? then None
      else match Leading(s[at.value + 1..], n - 1)
        case None => None
        case Some(p) => Some(([s[..at.value]] + p.0, p.1))
  }

  function ParseLine(s: string): Option<Line> {
    match Leading(s, 6)
    case None => None
    case Some(p) => if |p.0| != 6 then None else Some(Line(p.0[0], p.0[1], p.0[2], p.0[3], p.0[4], p.0[5], p.1))
  }

  function ParseLines(texts: seq<string>): Option<seq<Line>> {
    if texts == [] then None
    else if |texts| == 1 then (if texts[0] == "" then Some([]) else None)
    else match (ParseLine(texts[0]), ParseLines(texts[1..]))
      case (Some(l), Some(more)) => Some([l] + more)
      case _ => None
  }

  // An environment line, then one job to a line.
  function ParseCronFile(text: string): Option<seq<Line>> {
    if |text| < |HEADER| || text[..|HEADER|] != HEADER then None
    else ParseLines(Split(text[|HEADER|..], '\n'))
  }

  predicate SiteUser(u: string) {
    && 1 <= |u| <= 32
    && ('a' <= u[0] <= 'z' || u[0] == '_')
    && forall i :: 0 <= i < |u| ==> 'a' <= u[i] <= 'z' || '0' <= u[i] <= '9' || u[i] == '_' || u[i] == '-'
  }

  // What the adapter renders: validated fields and a site user. The command is any text.
  ghost predicate Renderable(l: Line) {
    && ValidCronField(l.minute, 0, 59) && ValidCronField(l.hour, 0, 23) && ValidCronField(l.day, 1, 31)
    && ValidCronField(l.month, 1, 12) && ValidCronField(l.weekday, 0, 7)
    && SiteUser(l.user)
  }

  predicate Solid(f: string) {
    ' ' !in f && '\n' !in f
  }

  lemma SplitOffField(f: string, rest: string, n: nat)
    requires ' ' !in f && n > 0
    ensures Leading(f + " " + rest, n) ==
      match Leading(rest, n - 1) case None => None case Some(p) => Some(([f] + p.0, p.1))
  {
    var s := f + " " + rest;
    assert At(s, " ", |f|);
    forall j: nat | j < |f|
      ensures !At(s, " ", j)
    {
      assert s[j + 0] == f[j] && f[j] in f && " "[0] == ' ';
    }
    FirstIsIndex(s, " ", |f|);
    assert s[..|f|] == f && s[|f| + 1..] == rest;
  }

  lemma {:induction false} FieldsLeadBack(fields: seq<string>, command: string)
    requires forall f :: f in fields ==> ' ' !in f
    ensures Leading(Join(fields + [command], ' '), |fields|) == Some((fields, command))
  {
    if fields == [] {
      assert Join([command], ' ') == command;
    } else {
      var f, more := fields[0], fields[1..];
      FieldsLeadBack(more, command);
      JoinBehind(f, more + [command], ' ');
      SplitOffField(f, Join(more + [command], ' '), |fields|);
      assert fields == [f] + more && fields + [command] == [f] + (more + [command]);
      assert " " == [' '];
    }
  }

  lemma FieldsAreSolid(l: Line)
    requires Renderable(l)
    ensures Solid(l.minute) && Solid(l.hour) && Solid(l.day) && Solid(l.month) && Solid(l.weekday) && Solid(l.user)
  {
  }

  lemma OneLine(l: Line)
    requires Renderable(l) && '\n' !in l.command
    ensures '\n' !in Join(Parts(l), ' ')
  {
    FieldsAreSolid(l);
    JoinHolds(Parts(l), ' ', '\n');
  }

  lemma PartsReadBack(l: Line)
    requires Renderable(l) && '\n' !in l.command
    ensures ParseLine(Join(Parts(l), ' ')) == Some(l) && '\n' !in Join(Parts(l), ' ')
  {
    FieldsAreSolid(l);
    var fields := [l.minute, l.hour, l.day, l.month, l.weekday, l.user];
    assert Parts(l) == fields + [l.command];
    FieldsLeadBack(fields, l.command);
    OneLine(l);
  }

  lemma FirstLineParses(body: string, texts: seq<string>, l: Line, lines: seq<Line>)
    requires texts != [] && ParseLine(body) == Some(l) && ParseLines(texts) == Some(lines)
    ensures ParseLines([body] + texts) == Some([l] + lines)
  {
    assert ([body] + texts)[1..] == texts;
  }

  lemma OneLineMore(l: Line, rest: string, lines: seq<Line>)
    requires Renderable(l) && '\n' !in l.command && ParseLines(Split(rest, '\n')) == Some(lines)
    ensures ParseLines(Split(RenderLine(l) + rest, '\n')) == Some([l] + lines)
  {
    var body := Join(Parts(l), ' ');
    PartsReadBack(l);
    assert RenderLine(l) + rest == body + ['\n'] + rest;
    SplitFirst(body, '\n', rest);
    FirstLineParses(body, Split(rest, '\n'), l, lines);
  }

  lemma {:induction false} LinesReadBack(lines: seq<Line>)
    requires forall l :: l in lines ==> Renderable(l) && '\n' !in l.command
    ensures ParseLines(Split(RenderLines(lines), '\n')) == Some(lines)
  {
    if lines != [] {
      LinesReadBack(lines[1..]);
      OneLineMore(lines[0], RenderLines(lines[1..]), lines[1..]);
      assert [lines[0]] + lines[1..] == lines;
    }
  }

  /******* Commands of more than one line *******/

  // How many lines the commands take beyond one each.
  function Surplus(lines: seq<Line>): nat {
    if lines == [] then 0 else Count(lines[0].command, '\n') + Surplus(lines[1..])
  }

  lemma {:induction false} NoSurplusExactly(lines: seq<Line>)
    ensures Surplus(lines) == 0 <==> forall l :: l in lines ==> '\n' !in l.command
  {
    if lines != [] {
      NoSurplusExactly(lines[1..]);
      CountSplit(lines[0].command, '\n');
      assert forall l :: l in lines <==> l == lines[0] || l in lines[1..];
    }
  }

  lemma {:induction false} JoinCounts(fields: seq<string>, command: string, c: char, x: char)
    requires x != c && forall f :: f in fields ==> x !in f
    ensures Count(Join(fields + [command], c), x) == Count(command, x)
  {
    if fields == [] {
      assert Join([command], c) == command;
    } else {
      var f, more := fields[0], fields[1..];
      JoinCounts(more, command, c, x);
      JoinBehind(f, more + [command], c);
      assert fields + [command] == [f] + (more + [command]);
      CountAdds(f + [c], Join(more + [command], c), x);
      CountAdds(f, [c], x);
      CountSplit(f, x);
    }
  }

  lemma LineCounts(l: Line)
    requires Renderable(l)
    ensures Count(RenderLine(l), '\n') == Count(l.command, '\n') + 1
  {
    FieldsAreSolid(l);
    var fields := [l.minute, l.hour, l.day, l.month, l.weekday, l.user];
    assert Parts(l) == fields + [l.command];
    JoinCounts(fields, l.command, ' ', '\n');
    CountAdds(Join(Parts(l), ' '), "\n", '\n');
    assert "\n"[1..] == "";
  }

  lemma {:induction false} LinesCount(lines: seq<Line>)
    requires forall l :: l in lines ==> Renderable(l)
    ensures Count(RenderLines(lines), '\n') == |lines| + Surplus(lines)
  {
    if lines != [] {
      LinesCount(lines[1..]);
      LineCounts(lines[0]);
      CountAdds(RenderLine(lines[0]), RenderLines(lines[1..]), '\n');
    }
  }

  lemma {:induction false} ParsedLineCount(texts: seq<string>)
    ensures ParseLines(texts).Some? ==> |ParseLines(texts).value| + 1 == |texts|
  {
    if |texts| > 1 {
      ParsedLineCount(texts[1..]);
    }
  }

  lemma RenderedText(lines: seq<Line>)
    ensures ParseCronFile(RenderCronFile(lines)) == ParseLines(Split(RenderLines(lines), '\n'))
  {
    var text := RenderCronFile(lines);
    assert text[..|HEADER|] == HEADER && text[|HEADER|..] == RenderLines(lines);
  }

  /** The rendered crontab reads back as the jobs it was rendered from exactly when no command
      holds a newline; otherwise whatever is read, it is not as many jobs as there are. */
  lemma FileReadsBackExactly(lines: seq<Line>)
    requires forall l :: l in lines ==> Renderable(l)
    ensures ParseCronFile(RenderCronFile(lines)) == Some(lines) <==> forall l :: l in lines ==> '\n' !in l.command
    ensures
      var read := ParseCronFile(RenderCronFile(lines));
      read.Some? ==> |read.value| == |lines| + Surplus(lines)
  {
    var text := RenderLines(lines);
    RenderedText(lines);
    NoSurplusExactly(lines);
    LinesCount(lines);
    CountSplit(text, '\n');
    ParsedLineCount(Split(text, '\n'));
    if forall l :: l in lines ==> '\n' !in l.command {
      LinesReadBack(lines);
    }
  }

  /** A command that goes on after a newline with the text of another job is read as both jobs. */
  lemma OneJobReadsAsTwo(first: Line, second: Line)
    requires Renderable(first) && Renderable(second) && '\n' !in first.command && '\n' !in second.command
    ensures
      var both := first.(command := first.command + "\n" + Join(Parts(second), ' '));
      ParseCronFile(RenderCronFile([both])) == Some([first, second])
  {
    var both := first.(command := first.command + "\n" + Join(Parts(second), ' '));
    SameText(first, both, Join(Parts(second), ' '));
    RenderedText([both]);
    LinesReadBack([first, second]);
    assert [first, second][1..] == [second] && [second][1..] == [] && [both][1..] == [];
    assert RenderLines([both]) == RenderLines([first, second]);
  }

  lemma LongerCommand(fields: seq<string>, a: string, b: string)
    requires fields != []
    ensures Join(fields + [a + b], ' ') == Join(fields + [a], ' ') + b
    decreases |fields|
  {
    var f, more := fields[0], fields[1..];
    assert fields == [f] + more;
    assert fields + [a] == [f] + (more + [a]) && fields + [a + b] == [f] + (more + [a + b]);
    JoinBehind(f, more + [a], ' ');
    JoinBehind(f, more + [a + b], ' ');
    if more != [] {
      LongerCommand(more, a, b);
    } else {
      assert more + [a] == [a] && more + [a + b] == [a + b];
    }
  }

  lemma SameText(first: Line, both: Line, second: string)
    requires both == first.(command := first.command + "\n" + second)
    ensures RenderLine(both) == RenderLine(first) + (second + "\n")
  {
    var fields := [first.minute, first.hour, first.day, first.month, first.weekday, first.user];
    assert Parts(first) == fields + [first.command];
    assert first.command + "\n" + second == first.command + ("\n" + second);
    assert Parts(both) == fields + [first.command + ("\n" + second)];
    LongerCommand(fields, first.command, "\n" + second);
    var text := Join(Parts(first), ' ');
    assert text + ("\n" + second) + "\n" == text + "\n" + (second + "\n");
  }
}
