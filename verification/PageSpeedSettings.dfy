/**
 normalizePageSpeed and parsePageSpeed of internal/gateway/settings.go: a request
 becomes two sorted filter lists and a configuration text, and the stored text
 reads back as those two lists.
 */
module PageSpeedSettings {
  import opened Wrappers
  import opened Text
  import opened Sorting

  /******* Reading the configuration text *******/

  const KEYWORD := "pagespeed"
  const ENABLE := "EnableFilters"
  const DISABLE := "DisableFilters"

  function Emit(word: string): seq<string> {
    if word == "" then [] else [word]
  }

  // strings.Fields, given the word being collected
  function Fields(s: string, word: string): seq<string> {
    if s == [] then Emit(word)
    else if GoSpace(s[0]) then Emit(word) + Fields(s[1..], "")
    else Fields(s[1..], word + [s[0]])
  }

  function LineFields(line: string): seq<string> {
    Fields(TrimSuffix(TrimSpace(line), ';'), "")
  }

  // The comma-separated arguments of a directive named `kind`.
  function LineArguments(line: string, kind: string): seq<string> {
    var f := LineFields(line);
    if |f| == 3 && f[0] == KEYWORD && f[1] == kind then Split(f[2], ',') else []
  }

  function Arguments(lines: seq<string>, kind: string): seq<string> {
    if lines == [] then [] else LineArguments(lines[0], kind) + Arguments(lines[1..], kind)
  }

  function ParsePageSpeed(raw: string): (seq<string>, seq<string>) {
    var lines := Split(raw, '\n');
    (Sorted(Arguments(lines, ENABLE)), Sorted(Arguments(lines, DISABLE)))
  }

  lemma {:induction false} ArgumentsSplit(a: seq<string>, b: seq<string>, kind: string)
    ensures Arguments(a + b, kind) == Arguments(a, kind) + Arguments(b, kind)
  {
    if a == [] {
      assert a + b == b;
    } else {
      assert (a + b)[1..] == a[1..] + b;
      ArgumentsSplit(a[1..], b, kind);
    }
  }

  lemma ArgumentsGrow(lines: seq<string>, i: nat, kind: string)
    requires i < |lines|
    ensures Arguments(lines[..i + 1], kind) == Arguments(lines[..i], kind) + LineArguments(lines[i], kind)
  {
    assert lines[..i + 1] == lines[..i] + [lines[i]];
    ArgumentsSplit(lines[..i], [lines[i]], kind);
    assert [lines[i]][1..] == [];
  }

  method ReadPageSpeed(raw: string) returns (e: seq<string>, d: seq<string>)
    ensures (e, d) == ParsePageSpeed(raw)
  {
    e, d := [], [];
    var lines := Split(raw, '\n');
    var i := 0;
    while i < |lines|
      invariant 0 <= i <= |lines|
      invariant e == Arguments(lines[..i], ENABLE)
      invariant d == Arguments(lines[..i], DISABLE)
    {
      var f := LineFields(lines[i]);
      ArgumentsGrow(lines, i, ENABLE);
      ArgumentsGrow(lines, i, DISABLE);
      if |f| == 3 && f[0] == KEYWORD {
        if f[1] == ENABLE {
          e := e + Split(f[2], ',');
        }
        if f[1] == DISABLE {
          d := d + Split(f[2], ',');
        }
      }
      i := i + 1;
    }
    assert lines[..i] == lines;
    e, d := Sorted(e), Sorted(d);
  }

  /******* Writing it *******/

  function Directive(keyword: string, kind: string, argument: string): string {
    keyword + " " + kind + " " + argument + ";"
  }

  function Directives(keyword: string, kind: string, arguments: seq<string>): seq<string> {
    if arguments == [] then [] else [Directive(keyword, kind, arguments[0])] + Directives(keyword, kind, arguments[1..])
  }

  function ConfigLines(e: seq<string>, d: seq<string>): seq<string> {
    [Directive(KEYWORD, "RewriteLevel", "CoreFilters")]
    + Directives(KEYWORD, ENABLE, e) + Directives(KEYWORD, DISABLE, d)
    + ([Directive(KEYWORD, "HttpCacheCompressionLevel", "0")] + [Directive(KEYWORD, "FetchHttps", "enable")])
  }

  function ConfigText(e: seq<string>, d: seq<string>): string {
    Join(ConfigLines(e, d), '\n')
  }

  // What a filter name is made of.
  predicate WordChar(c: char) {
    'a' <= c <= 'z' || 'A' <= c <= 'Z' || c == '_' || '0' <= c <= '9'
  }

  ghost predicate Word(s: string) {
    s != "" && forall k :: 0 <= k < |s| ==> WordChar(s[k])
  }

  lemma {:induction false} WordIsOneField(w: string, rest: string, word: string)
    requires forall k :: 0 <= k < |w| ==> WordChar(w[k])
    ensures Fields(w + rest, word) == Fields(rest, word + w)
  {
    if w == "" {
      assert w + rest == rest && word + w == word;
    } else {
      assert (w + rest)[0] == w[0] && (w + rest)[1..] == w[1..] + rest;
      WordIsOneField(w[1..], rest, word + [w[0]]);
      assert word + [w[0]] + w[1..] == word + w;
    }
  }

  lemma FieldThenBlank(w: string, rest: string)
    requires Word(w)
    ensures Fields(w + (" " + rest), "") == [w] + Fields(rest, "")
  {
    WordIsOneField(w, " " + rest, "");
    assert "" + w == w && (" " + rest)[1..] == rest;
  }

  lemma LastField(w: string)
    requires Word(w)
    ensures Fields(w, "") == [w]
  {
    WordIsOneField(w, "", "");
    assert w + "" == w && "" + w == w;
  }

  // A directive is read back as its keyword, kind and argument.
  lemma DirectiveReadsBack(keyword: string, kind: string, argument: string)
    requires Word(keyword) && Word(kind) && Word(argument)
    ensures LineFields(Directive(keyword, kind, argument)) == [keyword, kind, argument]
  {
    var line := Directive(keyword, kind, argument);
    assert line[0] == keyword[0] && line[|line| - 1] == ';';
    SolidEnds(line);
    var text := keyword + (" " + (kind + (" " + argument)));
    assert line == text + ";" && line[..|line| - 1] == text;
    FieldThenBlank(keyword, kind + (" " + argument));
    FieldThenBlank(kind, argument);
    LastField(argument);
  }

  lemma OneDirective(kind: string, argument: string, wanted: string)
    requires Word(KEYWORD) && Word(kind) && Word(argument)
    ensures Arguments([Directive(KEYWORD, kind, argument)], wanted) == if kind == wanted then [argument] else []
  {
    DirectiveReadsBack(KEYWORD, kind, argument);
    var lines := [Directive(KEYWORD, kind, argument)];
    assert lines[1..] == [];
    assert ',' !in argument;
    SplitPlain(argument, ',');
  }

  lemma {:induction false} DirectivesReadBack(kind: string, arguments: seq<string>, wanted: string)
    requires Word(KEYWORD) && Word(kind) && forall x :: x in arguments ==> Word(x)
    ensures Arguments(Directives(KEYWORD, kind, arguments), wanted) == if kind == wanted then arguments else []
  {
    if arguments != [] {
      assert arguments[0] in arguments;
      OneDirective(kind, arguments[0], wanted);
      DirectivesReadBack(kind, arguments[1..], wanted);
      ArgumentsSplit([Directive(KEYWORD, kind, arguments[0])], Directives(KEYWORD, kind, arguments[1..]), wanted);
    }
  }

  lemma NamesAreWords()
    ensures Word(KEYWORD) && Word(ENABLE) && Word(DISABLE)
    ensures Word("RewriteLevel") && Word("CoreFilters") && Word("HttpCacheCompressionLevel") && Word("0")
    ensures Word("FetchHttps") && Word("enable")
  {
  }

  lemma KindsDiffer()
    ensures ENABLE != DISABLE
    ensures "RewriteLevel" != ENABLE && "RewriteLevel" != DISABLE
    ensures "HttpCacheCompressionLevel" != ENABLE && "HttpCacheCompressionLevel" != DISABLE
    ensures "FetchHttps" != ENABLE && "FetchHttps" != DISABLE
  {
    assert ENABLE[0] != DISABLE[0];
    assert "RewriteLevel"[0] == 'R' && "HttpCacheCompressionLevel"[0] == 'H' && "FetchHttps"[0] == 'F';
  }

  // The shape of the configuration, whatever the directives are called.
  lemma PiecesReadBack(first: string, a1: string, en: string, e: seq<string>, dis: string, d: seq<string>,
                       fourth: string, a4: string, fifth: string, a5: string, wanted: string)
    requires Word(KEYWORD) && Word(first) && Word(en) && Word(dis) && Word(fourth) && Word(fifth)
    requires Word(a1) && Word(a4) && Word(a5) && (forall x :: x in e ==> Word(x)) && (forall x :: x in d ==> Word(x))
    requires first != wanted && fourth != wanted && fifth != wanted && (wanted == en) != (wanted == dis)
    ensures Arguments([Directive(KEYWORD, first, a1)] + Directives(KEYWORD, en, e) + Directives(KEYWORD, dis, d)
                      + ([Directive(KEYWORD, fourth, a4)] + [Directive(KEYWORD, fifth, a5)]), wanted)
         == if wanted == en then e else d
  {
    OneDirective(first, a1, wanted);
    DirectivesReadBack(en, e, wanted);
    DirectivesReadBack(dis, d, wanted);
    OneDirective(fourth, a4, wanted);
    OneDirective(fifth, a5, wanted);
    FivePieces([Directive(KEYWORD, first, a1)], Directives(KEYWORD, en, e), Directives(KEYWORD, dis, d),
               [Directive(KEYWORD, fourth, a4)], [Directive(KEYWORD, fifth, a5)], wanted);
    Nothings(e, d);
  }

  lemma Nothings(e: seq<string>, d: seq<string>)
    ensures [] + e + [] + ([] + []) == e && [] + [] + d + ([] + []) == d
  {
  }

  lemma ConfigReadsBack(e: seq<string>, d: seq<string>, wanted: string)
    requires (forall x :: x in e ==> Word(x)) && (forall x :: x in d ==> Word(x))
    requires wanted == ENABLE || wanted == DISABLE
    ensures Arguments(ConfigLines(e, d), wanted) == if wanted == ENABLE then e else d
  {
    NamesAreWords();
    KindsDiffer();
    PiecesReadBack("RewriteLevel", "CoreFilters", ENABLE, e, DISABLE, d,
                   "HttpCacheCompressionLevel", "0", "FetchHttps", "enable", wanted);
  }

  lemma FivePieces(a: seq<string>, b: seq<string>, c: seq<string>, x: seq<string>, y: seq<string>, kind: string)
    ensures Arguments(a + b + c + (x + y), kind) ==
      Arguments(a, kind) + Arguments(b, kind) + Arguments(c, kind) + (Arguments(x, kind) + Arguments(y, kind))
  {
    ArgumentsSplit(a + b + c, x + y, kind);
    ArgumentsSplit(a + b, c, kind);
    ArgumentsSplit(a, b, kind);
    ArgumentsSplit(x, y, kind);
  }

  // A character no directive is made of.
  predicate Stray(x: char) {
    !WordChar(x) && x != ' ' && x != ';'
  }

  lemma DirectiveHoldsNo(keyword: string, kind: string, argument: string, x: char)
    requires Word(keyword) && Word(kind) && Word(argument) && Stray(x)
    ensures x !in Directive(keyword, kind, argument)
  {
  }

  lemma {:induction false} DirectivesHoldNo(kind: string, arguments: seq<string>, x: char)
    requires Word(KEYWORD) && Word(kind) && Stray(x) && forall y :: y in arguments ==> Word(y)
    ensures forall l :: l in Directives(KEYWORD, kind, arguments) ==> x !in l
  {
    if arguments != [] {
      assert arguments[0] in arguments;
      DirectiveHoldsNo(KEYWORD, kind, arguments[0], x);
      DirectivesHoldNo(kind, arguments[1..], x);
    }
  }

  lemma ConfigLinesHoldNo(e: seq<string>, d: seq<string>, x: char)
    requires (forall y :: y in e ==> Word(y)) && (forall y :: y in d ==> Word(y)) && Stray(x)
    ensures forall l :: l in ConfigLines(e, d) ==> x !in l
  {
    NamesAreWords();
    DirectiveHoldsNo(KEYWORD, "RewriteLevel", "CoreFilters", x);
    DirectivesHoldNo(ENABLE, e, x);
    DirectivesHoldNo(DISABLE, d, x);
    DirectiveHoldsNo(KEYWORD, "HttpCacheCompressionLevel", "0", x);
    DirectiveHoldsNo(KEYWORD, "FetchHttps", "enable", x);
  }

  /** The stored configuration text reads back as exactly the two lists it was written from. */
  lemma StoredConfigReadsBack(e: seq<string>, d: seq<string>)
    requires Ascending(e) && Ascending(d)
    requires (forall x :: x in e ==> Word(x)) && (forall x :: x in d ==> Word(x))
    ensures ParsePageSpeed(ConfigText(e, d)) == (e, d)
  {
    ConfigLinesHoldNo(e, d, '\n');
    SplitJoin(ConfigLines(e, d), '\n');
    ConfigReadsBack(e, d, ENABLE);
    ConfigReadsBack(e, d, DISABLE);
    KindsDiffer();
    AscendingIsSorted(e);
    AscendingIsSorted(d);
  }

  /******* normalizePageSpeed *******/

  const FILTERS := {
    "remove_quotes", "prioritize_critical_css", "recompress_images", "responsive_images", "resize_images",
    "lazyload_images", "sprite_images", "insert_dns_prefetch", "hint_preload_subresources", "collapse_whitespace",
    "dedup_inlined_images", "inline_preview_images", "resize_mobile_images"}

  function Preset(name: string): Option<seq<string>> {
    if name == "core" then Some(["remove_quotes", "collapse_whitespace", "dedup_inlined_images"])
    else if name == "image" then
      Some(["remove_quotes", "collapse_whitespace", "dedup_inlined_images", "recompress_images", "responsive_images",
            "resize_images", "lazyload_images", "sprite_images", "inline_preview_images", "resize_mobile_images"])
    else if name == "cloudpanel-default" then
      Some(["remove_quotes", "recompress_images", "responsive_images", "resize_images", "lazyload_images", "sprite_images",
            "insert_dns_prefetch", "hint_preload_subresources", "collapse_whitespace", "dedup_inlined_images",
            "inline_preview_images", "resize_mobile_images"])
    else None
  }

  datatype Update = Update(enabled: bool, preset: string, enable: seq<string>, disable: seq<string>)

  datatype Normalized = Normalized(enabled: bool, e: seq<string>, d: seq<string>, config: string)

  predicate Acceptable(u: Update) {
    && Preset(u.preset).Some?
    && Elements(u.enable) <= FILTERS && Elements(u.disable) <= FILTERS
    && Elements(u.enable) !! Elements(u.disable)
  }

  // The preset and the enabled filters without the disabled ones; the disabled ones.
  ghost predicate Normalizes(u: Update, n: Normalized)
    requires Preset(u.preset).Some?
  {
    && n.enabled && n.config == ConfigText(n.e, n.d)
    && Ascending(n.e) && Ascending(n.d)
    && Elements(n.d) == Elements(u.disable)
    && Elements(n.e) == Elements(Preset(u.preset).value) + Elements(u.enable) - Elements(u.disable)
  }

  method NormalizePageSpeed(update: Option<Update>) returns (r: Result<Normalized>)
    ensures update.None? ==> r.Err?
    ensures update.Some? && !update.value.enabled ==> r == Ok(Normalized(false, [], [], ""))
    ensures update.Some? && update.value.enabled ==>
      && (r.Ok? <==> Acceptable(update.value))
      && (r.Ok? ==> Normalizes(update.value, r.value))
  {
    if update.None? {
      return Err;
    }
    var u := update.value;
    if !u.enabled {
      return Ok(Normalized(false, [], [], ""));
    }
    var preset := Preset(u.preset);
    if preset.None? {
      return Err;
    }
    var enabled: set<string> := Elements(preset.value);
    var i := 0;
    while i < |u.enable|
      invariant 0 <= i <= |u.enable|
      invariant Elements(u.enable[..i]) <= FILTERS
      invariant enabled == Elements(preset.value) + Elements(u.enable[..i])
    {
      var f := u.enable[i];
      assert u.enable[..i + 1] == u.enable[..i] + [f];
      if f !in FILTERS {
        assert f in Elements(u.enable);
        return Err;
      }
      enabled := enabled + {f};
      i := i + 1;
    }
    assert u.enable[..i] == u.enable;
    var disabled: set<string> := {};
    i := 0;
    while i < |u.disable|
      invariant 0 <= i <= |u.disable|
      invariant disabled == Elements(u.disable[..i]) <= FILTERS
      invariant Elements(u.enable) !! disabled
      invariant enabled == Elements(preset.value) + Elements(u.enable) - disabled
    {
      var f := u.disable[i];
      assert u.disable[..i + 1] == u.disable[..i] + [f];
      if f !in FILTERS || f in u.enable {
        assert f in Elements(u.disable);
        return Err;
      }
      disabled := disabled + {f};
      enabled := enabled - {f};
      i := i + 1;
    }
    assert u.disable[..i] == u.disable;
    var e := SortedSet(enabled);
    var d := SortedSet(disabled);
    return Ok(Normalized(true, e, d, ConfigText(e, d)));
  }

  lemma ImageFiltersAreWords()
    ensures Word("recompress_images") && Word("responsive_images") && Word("resize_images") && Word("lazyload_images")
    ensures Word("sprite_images") && Word("resize_mobile_images")
  {
  }

  lemma InlineFiltersAreWords()
    ensures Word("dedup_inlined_images") && Word("inline_preview_images")
  {
  }

  lemma OtherFiltersAreWords()
    ensures Word("remove_quotes") && Word("prioritize_critical_css") && Word("insert_dns_prefetch")
    ensures Word("hint_preload_subresources") && Word("collapse_whitespace")
  {
  }

  lemma FiltersAreWords(f: string)
    requires f in FILTERS
    ensures Word(f)
  {
    ImageFiltersAreWords();
    InlineFiltersAreWords();
    OtherFiltersAreWords();
  }

  lemma PresetsAreFilters(name: string)
    requires Preset(name).Some?
    ensures Elements(Preset(name).value) <= FILTERS
  {
  }

  lemma ListsAreWords(u: Update, n: Normalized)
    requires Acceptable(u) && Normalizes(u, n)
    ensures (forall x :: x in n.e ==> Word(x)) && forall x :: x in n.d ==> Word(x)
  {
    PresetsAreFilters(u.preset);
    forall x | x in n.e || x in n.d
      ensures Word(x)
    {
      assert x in Elements(n.e) || x in Elements(n.d);
      FiltersAreWords(x);
    }
  }

  /** No text that an accepted update stores holds a hash. */
  lemma AcceptedTextHasNoHash(u: Update, n: Normalized)
    requires Acceptable(u) && Normalizes(u, n)
    ensures '#' !in n.config
  {
    ListsAreWords(u, n);
    ConfigLinesHoldNo(n.e, n.d, '#');
    JoinHolds(ConfigLines(n.e, n.d), '\n', '#');
  }

  /** The stored result of an accepted update parses back to exactly the sorted enabled and
      disabled lists, which are disjoint; the result itself is unique. */
  lemma AcceptedUpdateReadsBack(u: Update, n: Normalized)
    requires Acceptable(u) && Normalizes(u, n)
    ensures ParsePageSpeed(n.config) == (n.e, n.d)
    ensures Elements(n.e) !! Elements(n.d)
    ensures forall other :: Normalizes(u, other) ==> other == n
  {
    ListsAreWords(u, n);
    StoredConfigReadsBack(n.e, n.d);
    forall other | Normalizes(u, other)
      ensures other == n
    {
      assert forall x :: x in other.e <==> x in Elements(other.e);
      assert forall x :: x in other.d <==> x in Elements(other.d);
      AscendingIsUnique(n.e, other.e);
      AscendingIsUnique(n.d, other.d);
    }
  }
}
