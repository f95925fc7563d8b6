/**
 Quoting command words for the shell (internal/gateway/cron.go) and reading them
 back by the backslash and single-quote rules of sections 2.2.1, 2.2.2 and 2.3
 of POSIX XCU chapter 2.
 */
module Shell {
  import opened Wrappers
  import opened Text

  // strings.ReplaceAll(v, "'", `'\''`)
  function Escaped(v: string): string {
    if v == [] then "" else (if v[0] == '\'' then "'\\''" else [v[0]]) + Escaped(v[1..])
  }

  function ShellQuote(v: string): string {
    "'" + Escaped(v) + "'"
  }

  function QuoteAll(words: seq<string>): seq<string> {
    if words == [] then [] else [ShellQuote(words[0])] + QuoteAll(words[1..])
  }

  /******* The shell's reading *******/

  datatype Mode = Plain | Quoted

  // Characters that are not ordinary outside quotes.
  predicate Special(c: char) {
    || c == '|' || c == '&' || c == ';' || c == '<' || c == '>' || c == '(' || c == ')' || c == '$' || c == '`'
    || c == '\"' || c == '*' || c == '?' || c == '[' || c == '#' || c == '~' || c == '=' || c == '%'
    || c == '\n' || c == '\r'
  }

  function Emit(word: Option<string>): seq<string> {
    if word.Some? then [word.value] else []
  }

  function Grown(word: Option<string>, c: char): Option<string> {
    Some((if word.Some? then word.value else "") + [c])
  }

  // The words of s, given the word being collected; None when a quote stays open, a backslash
  // ends the text or a character is not covered by the quoting rules.
  function Words(s: string, word: Option<string>, mode: Mode): Option<seq<string>>
    decreases |s|
  {
    if s == [] then (if mode == Quoted then None else Some(Emit(word)))
    else
      var c, rest := s[0], s[1..];
      if mode == Quoted then
        if c == '\'' then Words(rest, word, Plain) else Words(rest, Grown(word, c), Quoted)
      else if c == '\'' then Words(rest, Some(if word.Some? then word.value else ""), Quoted)
      else if c == '\\' then
        if rest == [] then None
        else if rest[0] == '\n' then Words(rest[1..], word, Plain)
        else Words(rest[1..], Grown(word, rest[0]), Plain)
      else if c == ' ' || c == '\t' then
        match Words(rest, None, Plain)
        case None => None
        case Some(more) => Some(Emit(word) + more)
      else if Special(c) then None
      else Words(rest, Grown(word, c), Plain)
  }

  function Tokenise(s: string): Option<seq<string>> {
    Words(s, None, Plain)
  }

  // Leaving the quotes, an escaped quote, and entering them again.
  lemma QuoteInside(tail: string, word: string)
    ensures Words("'\\''" + tail, Some(word), Quoted) == Words(tail, Some(word + "'"), Quoted)
  {
    var s := "'\\''" + tail;
    var s1, s2 := "\\''" + tail, "'" + tail;
    assert s[1..] == s1 && s1[1..] == "'" + s2 && ("'" + s2)[1..] == s2 && s2[1..] == tail;
    assert Words(s, Some(word), Quoted) == Words(s1, Some(word), Plain);
    assert Words(s1, Some(word), Plain) == Words(s2, Grown(Some(word), '\''), Plain);
    assert Words(s2, Some(word + "'"), Plain) == Words(tail, Some(word + "'"), Quoted);
  }

  lemma {:induction false} QuotedTextIsLiteral(v: string, rest: string, word: string)
    ensures Words(Escaped(v) + "'" + rest, Some(word), Quoted) == Words(rest, Some(word + v), Plain)
  {
    var s := Escaped(v) + "'" + rest;
    if v == [] {
      assert s == "'" + rest && word + v == word;
    } else if v[0] == '\'' {
      var tail := Escaped(v[1..]) + "'" + rest;
      assert s == "'\\''" + tail;
      QuoteInside(tail, word);
      QuotedTextIsLiteral(v[1..], rest, word + "'");
      assert word + "'" + v[1..] == word + v;
    } else {
      assert s == [v[0]] + (Escaped(v[1..]) + "'" + rest);
      QuotedTextIsLiteral(v[1..], rest, word + [v[0]]);
      assert word + [v[0]] + v[1..] == word + v;
    }
  }

  lemma QuotedWord(v: string, rest: string)
    ensures Words(ShellQuote(v) + rest, None, Plain) == Words(rest, Some(v), Plain)
  {
    var s := ShellQuote(v) + rest;
    assert s[1..] == Escaped(v) + "'" + rest;
    QuotedTextIsLiteral(v, rest, "");
    assert "" + v == v;
  }

  lemma BlankEndsWord(v: string, rest: string)
    ensures Words(" " + rest, Some(v), Plain) ==
      match Tokenise(rest) case None => None case Some(more) => Some([v] + more)
  {
    assert (" " + rest)[1..] == rest;
  }

  /** The shell reads the quoted words, joined by single blanks, back as exactly those words. */
  lemma {:induction false} QuotedListRoundTrip(words: seq<string>)
    ensures Tokenise(Join(QuoteAll(words), ' ')) == Some(words)
  {
    if words != [] {
      var v, rest := words[0], words[1..];
      if rest == [] {
        assert Join(QuoteAll(words), ' ') == ShellQuote(v) + "";
        QuotedWord(v, "");
        assert Words("", Some(v), Plain) == Some([v]) && words == [v];
      } else {
        QuotedListRoundTrip(rest);
        assert QuoteAll(words)[1..] == QuoteAll(rest) && |QuoteAll(rest)| >= 1;
        var tail := Join(QuoteAll(rest), ' ');
        assert Join(QuoteAll(words), ' ') == ShellQuote(v) + (" " + tail);
        QuotedWord(v, " " + tail);
        BlankEndsWord(v, tail);
        assert words == [v] + rest;
      }
    }
  }

  // A word the shell takes literally without quotes.
  predicate Ordinary(v: string) {
    v != "" && forall i :: 0 <= i < |v| ==> OrdinaryChar(v[i])
  }

  predicate OrdinaryChar(c: char) {
    !Special(c) && c != '\'' && c != '\\' && c != ' ' && c != '\t'
  }

  lemma {:induction false} OrdinaryText(v: string, rest: string, word: string)
    requires forall i :: 0 <= i < |v| ==> OrdinaryChar(v[i])
    ensures Words(v + rest, Some(word), Plain) == Words(rest, Some(word + v), Plain)
  {
    if v == [] {
      assert v + rest == rest && word + v == word;
    } else {
      assert OrdinaryChar(v[0]) && (v + rest)[0] == v[0] && (v + rest)[1..] == v[1..] + rest;
      OrdinaryText(v[1..], rest, word + [v[0]]);
      assert word + [v[0]] + v[1..] == word + v;
    }
  }

  lemma OrdinaryWord(v: string, rest: string)
    requires Ordinary(v)
    ensures Words(v + rest, None, Plain) == Words(rest, Some(v), Plain)
  {
    assert OrdinaryChar(v[0]) && (v + rest)[0] == v[0] && (v + rest)[1..] == v[1..] + rest;
    OrdinaryText(v[1..], rest, "" + [v[0]]);
    assert "" + [v[0]] + v[1..] == v;
  }

  /******* Lists of words *******/

  lemma {:induction false} QuoteAllSplits(a: seq<string>, b: seq<string>)
    ensures QuoteAll(a + b) == QuoteAll(a) + QuoteAll(b)
  {
    if a == [] {
      assert a + b == b;
    } else {
      assert (a + b)[1..] == a[1..] + b;
      QuoteAllSplits(a[1..], b);
    }
  }

  // Unquoted ordinary words in front of a text.
  lemma {:induction false} OrdinaryPrefix(words: seq<string>, rest: string)
    requires |words| >= 1 && forall i :: 0 <= i < |words| ==> Ordinary(words[i])
    ensures Tokenise(Join(words, ' ') + " " + rest) ==
      match Tokenise(rest) case None => None case Some(tail) => Some(words + tail)
  {
    var v := words[0];
    if |words| == 1 {
      OrdinaryWord(v, " " + rest);
      assert Join(words, ' ') + " " + rest == v + (" " + rest);
      BlankEndsWord(v, rest);
      assert words == [v];
    } else {
      OrdinaryPrefix(words[1..], rest);
      var more := Join(words[1..], ' ') + " " + rest;
      assert Join(words, ' ') + " " + rest == v + (" " + more);
      OrdinaryWord(v, " " + more);
      BlankEndsWord(v, more);
      if Tokenise(rest).Some? {
        assert [v] + (words[1..] + Tokenise(rest).value) == words + Tokenise(rest).value;
      }
    }
  }

  predicate FlagChar(c: char) {
    'a' <= c <= 'z' || 'A' <= c <= 'Z' || '0' <= c <= '9' || c == '-' || c == '/'
  }

  lemma FlagIsOrdinary(v: string)
    requires v != "" && forall i :: 0 <= i < |v| ==> FlagChar(v[i])
    ensures Ordinary(v)
  {
  }

  lemma {:induction false} JoinLast(words: seq<string>, w: string)
    requires |words| >= 1
    ensures Join(words + [w], ' ') == Join(words, ' ') + " " + w
  {
    if |words| > 1 {
      assert (words + [w])[1..] == words[1..] + [w];
      JoinLast(words[1..], w);
      assert Join(words + [w], ' ') == words[0] + " " + (Join(words[1..], ' ') + " " + w);
    } else {
      assert (words + [w])[1..] == [w];
    }
  }

  lemma JoinQuoted(head: seq<string>, args: seq<string>)
    requires 1 <= |head| <= 2
    ensures Join(QuoteAll(head), ' ') ==
      if |head| == 1 then ShellQuote(head[0]) else ShellQuote(head[0]) + " " + ShellQuote(head[1])
    ensures Join(QuoteAll(head + args), ' ') ==
      if args == [] then Join(QuoteAll(head), ' ') else Join(QuoteAll(head), ' ') + " " + Join(QuoteAll(args), ' ')
  {
    QuoteAllSplits(head, args);
    var q := QuoteAll(args);
    if |head| == 1 {
      assert QuoteAll(head) == [ShellQuote(head[0])];
      assert ([ShellQuote(head[0])] + q)[1..] == q;
    } else {
      assert QuoteAll(head) == [ShellQuote(head[0]), ShellQuote(head[1])];
      assert (QuoteAll(head) + q)[1..] == [ShellQuote(head[1])] + q;
      assert ([ShellQuote(head[1])] + q)[1..] == q;
    }
  }

  lemma {:induction false} EscapedSplits(a: string, b: string)
    ensures Escaped(a + b) == Escaped(a) + Escaped(b)
  {
    if a == [] {
      assert a + b == b;
    } else {
      assert (a + b)[0] == a[0] && (a + b)[1..] == a[1..] + b;
      EscapedSplits(a[1..], b);
    }
  }

  lemma {:induction false} EscapedHolds(v: string, x: char)
    requires x != '\'' && x != '\\'
    ensures x in Escaped(v) <==> x in v
  {
    if v != [] {
      EscapedHolds(v[1..], x);
      assert v == [v[0]] + v[1..];
    }
  }

  // A quote that is not closed makes the text unreadable.
  lemma {:induction false} OpenQuote(v: string, word: string)
    ensures Words(Escaped(v), Some(word), Quoted) == None
  {
    if v != [] {
      if v[0] == '\'' {
        QuoteInside(Escaped(v[1..]), word);
        OpenQuote(v[1..], word + "'");
      } else {
        assert Escaped(v) == [v[0]] + Escaped(v[1..]);
        OpenQuote(v[1..], word + [v[0]]);
      }
    }
  }
}
