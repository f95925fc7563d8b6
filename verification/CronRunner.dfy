/**
 Cron runners of internal/gateway/cron.go: which requests validateCronRunner lets
 through, the command renderCronCommand writes for them, and what the cron daemon
 and the shell make of that command.
 */
module CronRunner {
  import opened Wrappers
  import opened Text
  import opened Paths
  import opened Shell

  /******* The command *******/

  // A runner with its program and target looked up.
  datatype Runner =
    | PhpScript(binary: string, target: string)
    | SiteExecutable(target: string)
    | NodeScript(binary: string, target: string)
    | HttpRequest(verb: string, url: string)
    | RawCommand(text: string)

  const CURL := ["/usr/bin/curl", "--fail", "--silent", "--show-error", "--max-time", "60", "-X"]

  const MAX_COMMAND := 255

  function Command(r: Runner, args: seq<string>): string {
    var head := match r
      case PhpScript(binary, target) => ShellQuote(binary) + " " + ShellQuote(target)
      case SiteExecutable(target) => ShellQuote(target)
      case NodeScript(binary, target) => ShellQuote(binary) + " " + ShellQuote(target)
      case HttpRequest(verb, url) => Join(CURL, ' ') + " " + verb + " " + ShellQuote(url)
      case RawCommand(text) => text;
    if |args| > 0 then head + " " + Join(QuoteAll(args), ' ') else head
  }

  // What the runner means to execute.
  function Argv(r: Runner): seq<string> {
    match r
    case PhpScript(binary, target) => [binary, target]
    case SiteExecutable(target) => [target]
    case NodeScript(binary, target) => [binary, target]
    case HttpRequest(verb, url) => CURL + [verb, url]
    case RawCommand(text) => []
  }

  // The program and the target of a typed runner.
  function Binary(r: Runner): string {
    if r.PhpScript? || r.NodeScript? then r.binary else ""
  }

  function Target(r: Runner): string {
    if r.HttpRequest? then r.url else if r.RawCommand? then "" else r.target
  }

  /******* validateCronRunner *******/

  // A request as it arrives.
  datatype Ask =
    | AskPhp(script: string)
    | AskExecutable(path: string)
    | AskNode(script: string)
    | AskHttp(verb: string, url: string)
    | AskRaw(text: string)
    | AskOther

  datatype Url = Url(scheme: string, userInfo: bool, host: string)

  // What is looked up for the request: the site's directories and runtimes, the policy, the
  // disk behind a path, and url.Parse.
  datatype Env = Env(
    domain: string, htdocs: string, release: string, php: Option<string>, node: Option<string>, rawAllowed: bool,
    resolve: string -> Option<string>, regular: string -> bool, executable: string -> bool, parse: string -> Option<Url>)

  predicate ArgAllowed(a: string) {
    1 <= |a| <= 128 && forall i :: 0 <= i < |a| ==> a[i] != '\0' && a[i] != '\r' && a[i] != '\n'
  }

  predicate TargetNamed(target: string) {
    target != "" && !IsAbs(target) && Index(target, "..").None?
  }

  // siteRootFile
  function SiteRootFile(env: Env, target: string): Option<string> {
    if !TargetNamed(target) then None
    else match env.resolve(PathUnder(env.htdocs, target))
      case None => None
      case Some(p) => if env.htdocs + "/" <= p then Some(p) else None
  }

  predicate UrlAllowed(env: Env, url: string) {
    && 1 <= |url| <= 180 && env.parse(url).Some?
    && var u := env.parse(url).value; u.scheme == "https" && !u.userInfo && u.host == env.domain
  }

  predicate RawAllowed(text: string) {
    && 1 <= |text| <= 255
    && forall i :: 0 <= i < |text| ==> text[i] != '\0' && text[i] != '\r' && text[i] != '\n' && text[i] != '%'
  }

  predicate ValidateCronRunner(env: Env, ask: Ask, args: seq<string>, confirm: bool) {
    && |args| <= 16 && (forall i :: 0 <= i < |args| ==> ArgAllowed(args[i]))
    && match ask
       case AskPhp(t) => SiteRootFile(env, t).Some? && env.regular(SiteRootFile(env, t).value)
       case AskExecutable(t) =>
         && SiteRootFile(env, t).Some? && env.regular(SiteRootFile(env, t).value)
         && env.executable(SiteRootFile(env, t).value)
       case AskNode(t) => TargetNamed(t) && env.regular(PathUnder(env.release, t)) && env.node.Some?
       case AskHttp(verb, url) => args == [] && (verb == "GET" || verb == "POST") && UrlAllowed(env, url)
       case AskRaw(text) => env.rawAllowed && confirm && RawAllowed(text)
       case AskOther => false
  }

  // What renderCronCommand looks up again.
  function Resolved(env: Env, ask: Ask): Option<Runner> {
    match ask
    case AskPhp(t) =>
      if env.php.None? || env.php.value == "" || SiteRootFile(env, t).None? then None
      else Some(PhpScript("/usr/bin/php" + env.php.value, SiteRootFile(env, t).value))
    case AskExecutable(t) => if SiteRootFile(env, t).None? then None else Some(SiteExecutable(SiteRootFile(env, t).value))
    case AskNode(t) => if env.node.None? then None else Some(NodeScript(env.node.value, PathUnder(env.release, t)))
    case AskHttp(verb, url) => Some(HttpRequest(verb, url))
    case AskRaw(text) => Some(RawCommand(text))
    case AskOther => None
  }

  function RenderCronCommand(env: Env, ask: Ask, args: seq<string>): Result<string> {
    match Resolved(env, ask)
    case None => Err
    case Some(r) => if |Command(r, args)| > MAX_COMMAND then Err else Ok(Command(r, args))
  }

  /******* Newlines *******/

  lemma {:induction false} QuoteAllHolds(words: seq<string>, x: char)
    requires x != '\'' && x != '\\' && x != ' '
    ensures x in Join(QuoteAll(words), ' ') <==> exists w :: w in words && x in w
  {
    if words != [] {
      var v, rest := words[0], words[1..];
      QuoteAllHolds(rest, x);
      EscapedHolds(v, x);
      assert forall w :: w in words <==> w == v || w in rest;
      if rest != [] {
        assert QuoteAll(words)[1..] == QuoteAll(rest);
        assert Join(QuoteAll(words), ' ') == ShellQuote(v) + [' '] + Join(QuoteAll(rest), ' ');
      }
    }
  }

  lemma CurlHoldsNo(x: char)
    requires x == '\n' || x == '%' || x == '\\'
    ensures x !in Join(CURL, ' ') && forall i :: 0 <= i < |CURL| ==> x !in CURL[i]
  {
    forall w | w in CURL
      ensures x !in w
    {
      FlagHoldsNo(w, x);
    }
    JoinHolds(CURL, ' ', x);
  }

  lemma FlagHoldsNo(w: string, x: char)
    requires w in CURL && (x == '\n' || x == '%' || x == '\\')
    ensures x !in w
  {
  }

  lemma FileHeadHolds(binary: string, target: string, x: char)
    requires x != '\'' && x != '\\' && x != ' '
    ensures x in ShellQuote(binary) + " " + ShellQuote(target) <==> x in binary || x in target
    ensures x in ShellQuote(target) <==> x in target
  {
    EscapedHolds(binary, x);
    EscapedHolds(target, x);
  }

  lemma HttpHeadHolds(head: string, verb: string, url: string, x: char)
    requires x != '\'' && x != '\\' && x != ' ' && x !in head && x !in verb
    ensures x in head + " " + verb + " " + ShellQuote(url) <==> x in url
  {
    EscapedHolds(url, x);
  }

  lemma HeadHolds(r: Runner, x: char)
    requires !r.RawCommand? && (r.HttpRequest? ==> r.verb == "GET" || r.verb == "POST")
    requires x == '\n' || x == '%'
    ensures x in Command(r, []) <==> x in Binary(r) || x in Target(r)
  {
    FileHeadHolds(Binary(r), Target(r), x);
    if r.HttpRequest? {
      CurlHoldsNo(x);
      HttpHeadHolds(Join(CURL, ' '), r.verb, r.url, x);
    }
  }

  lemma CommandHolds(r: Runner, args: seq<string>, x: char)
    requires x != '\'' && x != '\\' && x != ' '
    ensures x in Command(r, args) <==> x in Command(r, []) || exists w :: w in args && x in w
  {
    QuoteAllHolds(args, x);
    if |args| > 0 {
      assert Command(r, args) == Command(r, []) + " " + Join(QuoteAll(args), ' ');
    }
  }

  /** An accepted command is more than one line exactly when the program or the target that was
      looked up holds a newline; arguments and raw commands never do. */
  lemma NewlinesComeFromTheTarget(env: Env, ask: Ask, args: seq<string>, confirm: bool)
    requires ValidateCronRunner(env, ask, args, confirm) && RenderCronCommand(env, ask, args).Ok?
    ensures
      var r := Resolved(env, ask).value;
      '\n' in RenderCronCommand(env, ask, args).value <==> '\n' in Binary(r) || '\n' in Target(r)
  {
    var r := Resolved(env, ask).value;
    CommandHolds(r, args, '\n');
    assert forall w :: w in args ==> ArgAllowed(w) && '\n' !in w;
    if !ask.AskRaw? {
      HeadHolds(r, '\n');
    }
  }

  /** Where no symbolic link is involved, the looked-up target of a file runner holds a newline
      exactly when the requested target or the directory it is under does. */
  lemma TargetKeepsNewlines(env: Env, ask: Ask, args: seq<string>, confirm: bool)
    requires ValidateCronRunner(env, ask, args, confirm) && RenderCronCommand(env, ask, args).Ok?
    ensures var r := Resolved(env, ask).value;
      && (ask.AskNode? ==> ('\n' in Target(r) <==> '\n' in env.release || '\n' in ask.script))
      && (ask.AskPhp? && env.resolve(PathUnder(env.htdocs, ask.script)) == Some(PathUnder(env.htdocs, ask.script)) ==>
            ('\n' in Target(r) <==> '\n' in env.htdocs || '\n' in ask.script))
      && (ask.AskExecutable? && env.resolve(PathUnder(env.htdocs, ask.path)) == Some(PathUnder(env.htdocs, ask.path)) ==>
            ('\n' in Target(r) <==> '\n' in env.htdocs || '\n' in ask.path))
  {
    match ask
    case AskPhp(t) => PathUnderHolds(env.htdocs, t, '\n');
    case AskExecutable(t) => PathUnderHolds(env.htdocs, t, '\n');
    case AskNode(t) => PathUnderHolds(env.release, t, '\n');
    case _ =>
  }

  /******* The cron daemon *******/

  // What ends a command: a percent sign, and the end of the crontab line.
  predicate Ends(c: char) {
    c == '%' || c == '\n'
  }

  // A backslash keeps the character behind it from ending the command, unless the line ends there.
  predicate Pairs(s: string) {
    |s| > 1 && s[0] == '\\' && s[1] != '\n'
  }

  // The command as it reaches the shell: up to what ends it, and with the backslash taken away
  // in front of a character in `strips`. The manual page says "%" for that; daemons differ in
  // whether they take it away, and whether also in front of another backslash.
  function Delivered(s: string, strips: set<char>): string {
    if s == [] || Ends(s[0]) then ""
    else if Pairs(s) then (if s[1] in strips then [s[1]] else s[..2]) + Delivered(s[2..], strips)
    else [s[0]] + Delivered(s[1..], strips)
  }

  // What becomes of a quoted word: its text, and whether the command ends inside it.
  function Through(v: string, strips: set<char>): (string, bool) {
    if v == [] then ("", false)
    else if Ends(v[0]) then ("", true)
    else if Pairs(v) then
      var (u, cut) := Through(v[2..], strips);
      ((if v[1] in strips then [v[1]] else v[..2]) + u, cut)
    else
      var (u, cut) := Through(v[1..], strips);
      ([v[0]] + u, cut)
  }

  predicate Survives(v: string, strips: set<char>) {
    Through(v, strips) == (v, false)
  }

  // The words the shell gets out of a list of quoted words.
  function Reading(words: seq<string>, strips: set<char>): Option<seq<string>> {
    if words == [] then Some([])
    else
      var (u, cut) := Through(words[0], strips);
      if cut then None
      else match Reading(words[1..], strips)
        case None => None
        case Some(more) => Some([u] + more)
  }

  lemma DeliveredPlain(c: char, rest: string, strips: set<char>)
    requires !Ends(c) && c != '\\'
    ensures Delivered([c] + rest, strips) == [c] + Delivered(rest, strips)
  {
    assert ([c] + rest)[1..] == rest;
  }

  lemma DeliveredPair(c: char, rest: string, strips: set<char>)
    requires c != '\n'
    ensures Delivered("\\" + [c] + rest, strips) == (if c in strips then [c] else "\\" + [c]) + Delivered(rest, strips)
  {
    var s := "\\" + [c] + rest;
    assert s[0] == '\\' && s[1] == c && s[2..] == rest && s[..2] == "\\" + [c];
  }

  lemma DeliveredQuote(rest: string, strips: set<char>)
    requires '\'' !in strips
    ensures Delivered("'\\''" + rest, strips) == "'\\''" + Delivered(rest, strips)
  {
    var q := "'" + rest;
    var p := "\\" + ['\''] + q;
    assert "'\\''" + rest == ['\''] + p;
    assert q == ['\''] + rest;
    DeliveredPlain('\'', p, strips);
    DeliveredPair('\'', q, strips);
    DeliveredPlain('\'', rest, strips);
    assert ['\''] + ("\\" + ['\''] + (['\''] + Delivered(rest, strips))) == "'\\''" + Delivered(rest, strips);
  }

  // One or two characters in front of a quoted rest.
  lemma PieceIsDelivered(piece: string, put: string, e: string, u: string, cut: bool, rest: string, strips: set<char>)
    requires Delivered(piece + (e + "'" + rest), strips) == put + Delivered(e + "'" + rest, strips)
    requires Delivered(e + "'" + rest, strips) == u + if cut then "" else "'" + Delivered(rest, strips)
    ensures Delivered(piece + e + "'" + rest, strips) == put + u + if cut then "" else "'" + Delivered(rest, strips)
  {
    assert piece + e + "'" + rest == piece + (e + "'" + rest);
  }

  lemma EscapedFirst(c: char, rest: string)
    ensures Escaped([c] + rest) == (if c == '\'' then "'\\''" else [c]) + Escaped(rest)
  {
    assert ([c] + rest)[1..] == rest;
  }

  lemma Prepended(a: string, b: string, c: string)
    ensures a + (b + c) == a + b + c
  {
  }

  lemma EscapedTwo(c: char, rest: string)
    ensures Escaped(['\\'] + ([c] + rest)) == (if c == '\'' then "\\'\\''" else ['\\'] + [c]) + Escaped(rest)
  {
    EscapedFirst('\\', [c] + rest);
    EscapedFirst(c, rest);
    Prepended(['\\'], if c == '\'' then "'\\''" else [c], Escaped(rest));
    assert ['\\'] + "'\\''" == "\\'\\''";
  }

  lemma PairSplits(v: string)
    requires |v| > 1
    ensures v == [v[0]] + ([v[1]] + v[2..]) && v[..2] == [v[0]] + [v[1]]
  {
  }

  lemma EscapedPair(v: string)
    requires |v| > 1 && v[0] == '\\'
    ensures Escaped(v) == (if v[1] == '\'' then "\\'\\''" else v[..2]) + Escaped(v[2..])
  {
    PairSplits(v);
    EscapedTwo(v[1], v[2..]);
  }

  lemma PairIsDelivered(c: char, rest: string, strips: set<char>)
    requires '\'' !in strips && c != '\n'
    ensures
      var piece := if c == '\'' then "\\'\\''" else "\\" + [c];
      Delivered(piece + rest, strips) == (if c in strips then [c] else piece) + Delivered(rest, strips)
  {
    if c == '\'' {
      var p2 := ['\''] + rest;
      var p1 := "\\" + ['\''] + p2;
      assert "\\'\\''" + rest == "\\" + ['\''] + p1;
      DeliveredPair('\'', p1, strips);
      DeliveredPair('\'', p2, strips);
      DeliveredPlain('\'', rest, strips);
      assert "\\" + ['\''] + ("\\" + ['\''] + (['\''] + Delivered(rest, strips))) == "\\'\\''" + Delivered(rest, strips);
    } else {
      DeliveredPair(c, rest, strips);
    }
  }

  lemma EscapedOfPair(c: char)
    ensures Escaped("\\" + [c]) == if c == '\'' then "\\'\\''" else "\\" + [c]
  {
    var v := "\\" + [c];
    assert v[0] == '\\' && v[1] == c && v[2..] == "" && v[..2] == v;
    EscapedPair(v);
  }

  lemma QuotedPairIsDelivered(v: string, rest: string, strips: set<char>)
    requires '\'' !in strips && Pairs(v)
    requires
      var (u, cut) := Through(v[2..], strips);
      Delivered(Escaped(v[2..]) + "'" + rest, strips) == Escaped(u) + if cut then "" else "'" + Delivered(rest, strips)
    ensures
      var (u, cut) := Through(v, strips);
      Delivered(Escaped(v) + "'" + rest, strips) == Escaped(u) + if cut then "" else "'" + Delivered(rest, strips)
  {
    var c := v[1];
    var (u, cut) := Through(v[2..], strips);
    var piece := if c == '\'' then "\\'\\''" else "\\" + [c];
    var put := if c in strips then [c] else "\\" + [c];
    assert v[..2] == "\\" + [c];
    EscapedPair(v);
    PairIsDelivered(c, Escaped(v[2..]) + "'" + rest, strips);
    PieceIsDelivered(piece, if c in strips then [c] else piece, Escaped(v[2..]), Escaped(u), cut, rest, strips);
    EscapedOfPair(c);
    EscapedSplits(put, u);
  }

  lemma QuotedCharIsDelivered(v: string, rest: string, strips: set<char>)
    requires '\'' !in strips && v != [] && !Ends(v[0]) && v[0] != '\\'
    requires
      var (u, cut) := Through(v[1..], strips);
      Delivered(Escaped(v[1..]) + "'" + rest, strips) == Escaped(u) + if cut then "" else "'" + Delivered(rest, strips)
    ensures
      var (u, cut) := Through(v, strips);
      Delivered(Escaped(v) + "'" + rest, strips) == Escaped(u) + if cut then "" else "'" + Delivered(rest, strips)
  {
    var (u, cut) := Through(v[1..], strips);
    var piece := if v[0] == '\'' then "'\\''" else [v[0]];
    var tail := Escaped(v[1..]) + "'" + rest;
    if v[0] == '\'' {
      DeliveredQuote(tail, strips);
    } else {
      DeliveredPlain(v[0], tail, strips);
    }
    PieceIsDelivered(piece, piece, Escaped(v[1..]), Escaped(u), cut, rest, strips);
    assert ([v[0]] + u)[1..] == u;
  }

  // A quoted word comes out as its new text, quoted; or the command ends in an open quote.
  lemma {:induction false} QuotedIsDelivered(v: string, rest: string, strips: set<char>)
    requires '\'' !in strips
    ensures
      var (u, cut) := Through(v, strips);
      Delivered(Escaped(v) + "'" + rest, strips) == Escaped(u) + if cut then "" else "'" + Delivered(rest, strips)
    decreases |v|
  {
    if v == [] {
      assert Escaped(v) + "'" + rest == ['\''] + rest;
      DeliveredPlain('\'', rest, strips);
    } else if Ends(v[0]) {
      assert (Escaped(v) + "'" + rest)[0] == v[0];
    } else if Pairs(v) {
      QuotedIsDelivered(v[2..], rest, strips);
      QuotedPairIsDelivered(v, rest, strips);
    } else if v[0] == '\\' {
      LoneBackslashIsDelivered(v, rest, strips);
    } else {
      QuotedIsDelivered(v[1..], rest, strips);
      QuotedCharIsDelivered(v, rest, strips);
    }
  }

  // A backslash at the end of the word or of the line.
  lemma LoneBackslashIsDelivered(v: string, rest: string, strips: set<char>)
    requires '\'' !in strips && v != [] && v[0] == '\\' && !Pairs(v)
    ensures
      var (u, cut) := Through(v, strips);
      Delivered(Escaped(v) + "'" + rest, strips) == Escaped(u) + if cut then "" else "'" + Delivered(rest, strips)
  {
    if |v| == 1 {
      assert v == "\\" && Escaped(v) + "'" + rest == "\\" + ['\''] + rest;
      DeliveredPair('\'', rest, strips);
      assert "\\" + ['\''] + Delivered(rest, strips) == "\\" + ("'" + Delivered(rest, strips));
    } else {
      var s := Escaped(v) + "'" + rest;
      PairSplits(v);
      EscapedTwo('\n', v[2..]);
      assert s[0] == '\\' && s[1] == '\n' && s[1..][0] == '\n';
      assert Delivered(s, strips) == "\\" && Through(v, strips) == ("\\" + "", true);
      EscapedFirst('\\', "");
      assert ['\\'] + "" == "\\";
    }
  }

  lemma {:induction false} ThroughShrinks(v: string, strips: set<char>)
    ensures |Through(v, strips).0| <= |v|
    ensures Survives(v, strips) ==> '\n' !in v && ('%' in strips ==> '%' !in v)
    ensures strips <= {'%'} && '%' !in v && '\n' !in v ==> Survives(v, strips)
    decreases |v|
  {
    if v != [] && !Ends(v[0]) {
      if Pairs(v) {
        ThroughShrinks(v[2..], strips);
        assert v == v[..2] + v[2..] && v[..2] == [v[0], v[1]];
      } else {
        ThroughShrinks(v[1..], strips);
        assert v == [v[0]] + v[1..];
      }
    }
  }

  // The daemon and then the shell on a list of quoted words.
  lemma {:induction false} QuotedListIsRead(words: seq<string>, strips: set<char>)
    requires '\'' !in strips
    ensures Tokenise(Delivered(Join(QuoteAll(words), ' '), strips)) == Reading(words, strips)
  {
    if words != [] {
      var v, rest := words[0], words[1..];
      var (u, cut) := Through(v, strips);
      var behind := if rest == [] then "" else " " + Join(QuoteAll(rest), ' ');
      QuotedListIsRead(rest, strips);
      assert rest != [] ==> QuoteAll(words)[1..] == QuoteAll(rest) && QuoteAll(rest) != [];
      assert Join(QuoteAll(words), ' ') == ['\''] + (Escaped(v) + "'" + behind);
      DeliveredPlain('\'', Escaped(v) + "'" + behind, strips);
      QuotedIsDelivered(v, behind, strips);
      FirstWordIsRead(u, cut, rest, behind, strips);
    }
  }

  lemma FirstWordIsRead(u: string, cut: bool, rest: seq<string>, behind: string, strips: set<char>)
    requires behind == if rest == [] then "" else " " + Join(QuoteAll(rest), ' ')
    requires Tokenise(Delivered(Join(QuoteAll(rest), ' '), strips)) == Reading(rest, strips)
    ensures Tokenise(['\''] + (Escaped(u) + if cut then "" else "'" + Delivered(behind, strips))) ==
      if cut then None else match Reading(rest, strips) case None => None case Some(more) => Some([u] + more)
  {
    if cut {
      assert Escaped(u) + "" == Escaped(u);
      CutWordIsNotRead(u);
    } else {
      var after := Delivered(behind, strips);
      assert ['\''] + (Escaped(u) + ("'" + after)) == ShellQuote(u) + after;
      QuotedWord(u, after);
      BehindIsRead(u, rest, behind, strips);
    }
  }

  lemma CutWordIsNotRead(u: string)
    ensures Tokenise(['\''] + Escaped(u)) == None
  {
    assert (['\''] + Escaped(u))[1..] == Escaped(u);
    OpenQuote(u, "");
  }

  lemma BehindIsRead(u: string, rest: seq<string>, behind: string, strips: set<char>)
    requires behind == if rest == [] then "" else " " + Join(QuoteAll(rest), ' ')
    requires Tokenise(Delivered(Join(QuoteAll(rest), ' '), strips)) == Reading(rest, strips)
    ensures Words(Delivered(behind, strips), Some(u), Plain) ==
      match Reading(rest, strips) case None => None case Some(more) => Some([u] + more)
  {
    if rest == [] {
      assert [u] + [] == [u];
    } else {
      var quoted := Join(QuoteAll(rest), ' ');
      DeliveredPlain(' ', quoted, strips);
      assert [' '] + quoted == behind && [' '] + Delivered(quoted, strips) == " " + Delivered(quoted, strips);
      BlankEndsWord(u, Delivered(quoted, strips));
    }
  }

  ghost predicate AllSurvive(words: seq<string>, strips: set<char>) {
    forall w :: w in words ==> Survives(w, strips)
  }

  lemma FirstAndRestSurvive(words: seq<string>, strips: set<char>)
    requires words != []
    ensures AllSurvive(words, strips) <==> Survives(words[0], strips) && AllSurvive(words[1..], strips)
  {
    assert forall w :: w in words <==> w == words[0] || w in words[1..];
  }

  lemma {:induction false} ReadingIsTheWordsExactly(words: seq<string>, strips: set<char>)
    ensures Reading(words, strips) == Some(words) <==> AllSurvive(words, strips)
  {
    if words != [] {
      ReadingIsTheWordsExactly(words[1..], strips);
      FirstAndRestSurvive(words, strips);
      assert words == [words[0]] + words[1..];
      if Reading(words, strips).Some? {
        SameFront(Through(words[0], strips).0, Reading(words[1..], strips).value, words[0], words[1..]);
      }
    }
  }

  lemma SameFront(u: string, more: seq<string>, v: string, rest: seq<string>)
    ensures [u] + more == [v] + rest <==> u == v && more == rest
  {
    if [u] + more == [v] + rest {
      assert ([u] + more)[0] == u && ([v] + rest)[0] == v;
      assert ([u] + more)[1..] == more && ([v] + rest)[1..] == rest;
    }
  }

  /******* Typed runners *******/

  predicate PlainText(s: string) {
    forall i :: 0 <= i < |s| ==> !Ends(s[i]) && s[i] != '\\'
  }

  lemma {:induction false} PlainIsDelivered(a: string, b: string, strips: set<char>)
    requires PlainText(a)
    ensures Delivered(a + b, strips) == a + Delivered(b, strips)
  {
    if a == [] {
      assert a + b == b;
    } else {
      assert a + b == [a[0]] + (a[1..] + b);
      DeliveredPlain(a[0], a[1..] + b, strips);
      PlainIsDelivered(a[1..], b, strips);
    }
  }

  lemma {:induction false} PlainSurvives(v: string, strips: set<char>)
    requires PlainText(v)
    ensures Survives(v, strips)
  {
    if v != [] {
      PlainSurvives(v[1..], strips);
      assert [v[0]] + v[1..] == v;
    }
  }

  lemma VerbIsPlain(verb: string)
    requires verb == "GET" || verb == "POST"
    ensures PlainText(verb) && Ordinary(verb)
  {
    FlagIsOrdinary(verb);
  }

  lemma CurlIsOrdinary()
    ensures forall i :: 0 <= i < |CURL| ==> Ordinary(CURL[i])
  {
    FlagIsOrdinary("/usr/bin/curl");
    FlagIsOrdinary("--fail");
    FlagIsOrdinary("--silent");
    FlagIsOrdinary("--show-error");
    FlagIsOrdinary("--max-time");
    FlagIsOrdinary("60");
    FlagIsOrdinary("-X");
  }

  // Ordinary plain words in front of a quoted list go through as they are.
  lemma PrefixIsRead(words: seq<string>, tail: seq<string>, strips: set<char>)
    requires |words| >= 1 && forall i :: 0 <= i < |words| ==> Ordinary(words[i])
    requires PlainText(Join(words, ' ')) && '\'' !in strips
    ensures Tokenise(Delivered(Join(words, ' ') + " " + Join(QuoteAll(tail), ' '), strips)) ==
      match Reading(tail, strips) case None => None case Some(more) => Some(words + more)
  {
    var quoted := Join(QuoteAll(tail), ' ');
    PlainIsDelivered(Join(words, ' ') + " ", quoted, strips);
    QuotedListIsRead(tail, strips);
    OrdinaryPrefix(words, Delivered(quoted, strips));
  }

  // The command text is the flags and the verb, then the quoted url and arguments.
  lemma CommandText(flags: seq<string>, verb: string, url: string, args: seq<string>)
    requires |flags| >= 1
    ensures
      var head := Join(flags, ' ') + " " + verb + " " + ShellQuote(url);
      (if |args| > 0 then head + " " + Join(QuoteAll(args), ' ') else head) ==
        Join(flags + [verb], ' ') + " " + Join(QuoteAll([url] + args), ' ')
  {
    JoinLast(flags, verb);
    JoinQuoted([url], args);
    if |args| > 0 {
      Regroup(Join(flags, ' ') + " " + verb, ShellQuote(url), Join(QuoteAll(args), ' '));
    }
  }

  lemma Regroup(a: string, b: string, c: string)
    ensures a + " " + b + " " + c == a + " " + (b + " " + c)
  {
  }

  lemma HttpFlags(verb: string)
    requires verb == "GET" || verb == "POST"
    ensures PlainText(Join(CURL + [verb], ' '))
    ensures forall i :: 0 <= i < |CURL + [verb]| ==> Ordinary((CURL + [verb])[i])
  {
    CurlIsOrdinary();
    VerbIsPlain(verb);
    JoinLast(CURL, verb);
    CurlIsPlain(Join(CURL, ' '));
    PlainPair(Join(CURL, ' '), verb);
  }

  lemma CurlIsPlain(head: string)
    requires head == Join(CURL, ' ')
    ensures PlainText(head)
  {
    CurlHoldsNo('%');
    CurlHoldsNo('\n');
    CurlHoldsNo('\\');
  }

  lemma PlainPair(a: string, b: string)
    requires PlainText(a) && PlainText(b)
    ensures PlainText(a + " " + b)
  {
  }

  lemma CurlSurvives(strips: set<char>)
    ensures forall w :: w in CURL ==> Survives(w, strips)
  {
    forall w | w in CURL
      ensures Survives(w, strips)
    {
      FlagHoldsNo(w, '%');
      FlagHoldsNo(w, '\n');
      FlagHoldsNo(w, '\\');
      PlainSurvives(w, strips);
    }
  }

  /** For a typed runner, the daemon and then the shell end up with exactly the program, the target
      and the arguments if and only if each of those words survives the daemon. */
  lemma JobsRunAsMeantExactly(r: Runner, args: seq<string>, strips: set<char>)
    requires !r.RawCommand? && (r.HttpRequest? ==> r.verb == "GET" || r.verb == "POST") && '\'' !in strips
    ensures Tokenise(Delivered(Command(r, args), strips)) == Some(Argv(r) + args) <==> AllSurvive(Argv(r) + args, strips)
  {
    if r.HttpRequest? {
      HttpRunsAsMeantExactly(r.verb, r.url, args, strips);
    } else {
      JoinQuoted(Argv(r), args);
      QuotedListIsRead(Argv(r) + args, strips);
      ReadingIsTheWordsExactly(Argv(r) + args, strips);
    }
  }

  lemma HttpIsRead(verb: string, url: string, args: seq<string>, strips: set<char>)
    requires (verb == "GET" || verb == "POST") && '\'' !in strips
    ensures Tokenise(Delivered(Command(HttpRequest(verb, url), args), strips)) ==
      match Reading([url] + args, strips) case None => None case Some(more) => Some(CURL + [verb] + more)
  {
    HttpFlags(verb);
    CommandText(CURL, verb, url, args);
    PrefixIsRead(CURL + [verb], [url] + args, strips);
  }

  lemma FlagsSurvive(verb: string, tail: seq<string>, strips: set<char>)
    requires verb == "GET" || verb == "POST"
    ensures AllSurvive(CURL + [verb] + tail, strips) <==> AllSurvive(tail, strips)
  {
    CurlSurvives(strips);
    VerbIsPlain(verb);
    PlainSurvives(verb, strips);
    assert forall w :: w in CURL + [verb] + tail <==> w in CURL || w == verb || w in tail;
  }

  lemma HttpRunsAsMeantExactly(verb: string, url: string, args: seq<string>, strips: set<char>)
    requires (verb == "GET" || verb == "POST") && '\'' !in strips
    ensures
      var r := HttpRequest(verb, url);
      Tokenise(Delivered(Command(r, args), strips)) == Some(Argv(r) + args) <==> AllSurvive(Argv(r) + args, strips)
  {
    var tail := [url] + args;
    HttpIsRead(verb, url, args, strips);
    ReadingIsTheWordsExactly(tail, strips);
    FlagsSurvive(verb, tail, strips);
    WordsRegroup(CURL, verb, url, args);
    SameBehind(CURL + [verb], tail, Reading(tail, strips));
  }

  lemma WordsRegroup(flags: seq<string>, verb: string, url: string, args: seq<string>)
    ensures flags + [verb, url] + args == flags + [verb] + ([url] + args)
  {
  }

  lemma SameBehind(a: seq<string>, b: seq<string>, read: Option<seq<string>>)
    ensures (match read case None => None case Some(more) => Some(a + more)) == Some(a + b) <==> read == Some(b)
  {
    if read.Some? && a + read.value == a + b {
      assert (a + read.value)[|a|..] == read.value && (a + b)[|a|..] == b;
    }
  }

  // The daemon of the manual page.
  const PERCENT: set<char> := {'%'}

  // The program, the target and the arguments of a typed job.
  function Asked(env: Env, ask: Ask, args: seq<string>): seq<string>
    requires Resolved(env, ask).Some?
  {
    Argv(Resolved(env, ask).value) + args
  }

  /** By the rule of the manual page: an accepted typed job runs exactly as asked if and only if
      there is neither a percent sign nor a newline in its program, target or arguments. */
  lemma AcceptedJobsRunAsAskedExactly(env: Env, ask: Ask, args: seq<string>, confirm: bool)
    requires ValidateCronRunner(env, ask, args, confirm) && RenderCronCommand(env, ask, args).Ok? && !ask.AskRaw?
    ensures
      Tokenise(Delivered(RenderCronCommand(env, ask, args).value, PERCENT)) == Some(Asked(env, ask, args)) <==>
        forall w :: w in Asked(env, ask, args) ==> '%' !in w && '\n' !in w
  {
    var r := Resolved(env, ask).value;
    JobsRunAsMeantExactly(r, args, PERCENT);
    forall w | w in Argv(r) + args
      ensures Survives(w, PERCENT) <==> '%' !in w && '\n' !in w
    {
      ThroughShrinks(w, PERCENT);
    }
  }

  // The path leads below a directory.
  predicate Inside(dir: string, path: string) {
    |dir| < |path| && path[..|dir|] == dir && path[|dir|] == '/'
  }

  // The text names the place below the directory whose components are given.
  predicate Below(dir: string, rest: Path, path: string) {
    path == Join([dir] + rest, '/') && forall i :: 0 <= i < |rest| ==> Normal(rest[i])
  }

  lemma RelativeStaysBelow(dir: string, target: string)
    requires TargetNamed(target)
    ensures Below(dir, Clean(target), PathUnder(dir, target))
  {
    var parts := Split(target, '/');
    if ".." in parts {
      PartIsInside(target, '/', "..");
    }
    CleanIsNormal([], parts);
  }

  lemma {:induction false} CleanIsNormal(stack: Path, parts: seq<string>)
    requires ".." !in parts && forall i :: 0 <= i < |stack| ==> Normal(stack[i])
    ensures forall i :: 0 <= i < |CleanOnto(stack, parts, false)| ==> Normal(CleanOnto(stack, parts, false)[i])
    decreases |parts|
  {
    if parts != [] {
      var p, rest := parts[0], parts[1..];
      assert p in parts && forall q :: q in rest ==> q in parts;
      CleanIsNormal(if p == "" || p == "." then stack else stack + [p], rest);
    }
  }

  /** The file an accepted job runs is where it may be: below htdocs, with all links followed, for
      scripts and executables; below the current release, by its name, for Node scripts. */
  lemma AcceptedFilesAreInside(env: Env, ask: Ask, args: seq<string>, confirm: bool)
    requires ValidateCronRunner(env, ask, args, confirm) && Resolved(env, ask).Some?
    requires ask.AskPhp? || ask.AskExecutable? || ask.AskNode?
    ensures
      var file := Target(Resolved(env, ask).value);
      && env.regular(file) && Asked(env, ask, args)[if ask.AskExecutable? then 0 else 1] == file
      && match ask
         case AskPhp(t) => Inside(env.htdocs, file) && env.resolve(PathUnder(env.htdocs, t)) == Some(file)
         case AskExecutable(t) =>
           && Inside(env.htdocs, file) && env.resolve(PathUnder(env.htdocs, t)) == Some(file) && env.executable(file)
         case AskNode(t) => Below(env.release, Clean(t), file)
         case _ => true
  {
    match ask
    case AskNode(t) => RelativeStaysBelow(env.release, t);
    case _ =>
  }

  lemma {:induction false} EscapedLength(v: string)
    ensures |Escaped(v)| <= 4 * |v|
  {
    if v != [] {
      EscapedLength(v[1..]);
    }
  }

  lemma {:induction false} JoinBound(parts: seq<string>, c: char)
    requires forall p :: p in parts ==> |p| < 15
    ensures |Join(parts, c)| <= 15 * |parts|
  {
    if |parts| > 1 {
      JoinBound(parts[1..], c);
      assert parts[0] in parts;
    } else if |parts| == 1 {
      assert parts[0] in parts;
    }
  }

  lemma HttpLength(head: string, verb: string, url: string)
    ensures |head + " " + verb + " " + ShellQuote(url)| <= |head| + |verb| + 4 * |url| + 4
  {
    EscapedLength(url);
  }

  lemma CurlIsShort()
    ensures |Join(CURL, ' ')| <= 105
  {
    JoinBound(CURL, ' ');
  }

  lemma ShortUrlRenders(env: Env, verb: string, url: string)
    requires |verb| <= 4 && |url| <= 30
    ensures RenderCronCommand(env, AskHttp(verb, url), []).Ok?
  {
    CurlIsShort();
    HttpLength(Join(CURL, ' '), verb, url);
  }

  // An allowed URL with a percent sign that is not escaped never reaches curl as it is.
  lemma PercentUrlIsCutShort(env: Env, url: string)
    requires UrlAllowed(env, url) && |url| <= 30 && '%' in url
    ensures
      var ask := AskHttp("GET", url);
      && ValidateCronRunner(env, ask, [], false) && RenderCronCommand(env, ask, []).Ok?
      && Tokenise(Delivered(RenderCronCommand(env, ask, []).value, PERCENT)) != Some(CURL + ["GET", url])
  {
    ShortUrlRenders(env, "GET", url);
    AcceptedJobsRunAsAskedExactly(env, AskHttp("GET", url), [], false);
    var words := CURL + ["GET", url];
    assert words + [] == words && words[|CURL| + 1] == url && url in words;
  }

  const ESCAPED_URL := "https://d.io/?q=a%20b"

  lemma EscapedUrlHasPercent()
    ensures |ESCAPED_URL| == 21 && '%' in ESCAPED_URL
  {
    assert ESCAPED_URL[17] == '%';
  }

  /** An accepted request that does not reach the shell as asked: its URL holds an escape. */
  lemma EscapedUrlIsCutShort(env: Env)
    requires env.domain == "d.io" && env.parse(ESCAPED_URL) == Some(Url("https", false, "d.io"))
    ensures
      var ask := AskHttp("GET", ESCAPED_URL);
      && ValidateCronRunner(env, ask, [], false) && RenderCronCommand(env, ask, []).Ok?
      && Tokenise(Delivered(RenderCronCommand(env, ask, []).value, PERCENT)) != Some(CURL + ["GET", ESCAPED_URL])
  {
    EscapedUrlHasPercent();
    PercentUrlIsCutShort(env, ESCAPED_URL);
  }
}
