/**
 patchPageSpeed of internal/gateway/settings.go: the managed PageSpeed block of a
 vhost is found by a regular expression, removed with the blanks in front of it,
 and put back before the first access_log or location line.
 */
module PageSpeedVhost {
  import opened Wrappers
  import opened Text
  import PageSpeedSettings

  // The texts the rewriting is about: the two marker lines and the two anchors.
  datatype Texts = Texts(begin: string, end: string, first: string, second: string, on: string)

  const PAGESPEED := Texts(
    "# cloudpanel-gateway-pagespeed begin", "# cloudpanel-gateway-pagespeed end",
    "\n\n  access_log", "\n  location ", "pagespeed on;")

  // Where the run of blanks in front of position b starts.
  function RunStart(s: string, b: nat): (r: nat)
    requires b <= |s|
    ensures r <= b && forall j :: r <= j < b ==> Space(s[j])
    ensures r > 0 ==> !Space(s[r - 1])
  {
    if b > 0 && Space(s[b - 1]) then RunStart(s, b - 1) else b
  }

  // The leftmost match of (?s)\n?\s*BEGIN.*?END\n? as its start and end.
  function FirstBlock(s: string, t: Texts): (r: Option<(nat, nat)>)
    ensures r.Some? ==> r.value.0 <= |s| && 0 < r.value.1 <= |s|
  {
    match Index(s, t.begin)
    case None => None
    case Some(b) => match IndexFrom(s, t.end, b + |t.begin|)
      case None => None
      case Some(e) =>
        var stop := e + |t.end|;
        var next := if stop < |s| && s[stop] == '\n' then stop + 1 else stop;
        if next == 0 then None else Some((RunStart(s, b), next))
  }

  // ReplaceAllString of that expression by a newline.
  function Cleaned(s: string, t: Texts): string
    decreases |s|
  {
    match FirstBlock(s, t)
    case None => s
    case Some(p) => s[..p.0] + "\n" + Cleaned(s[p.1..], t)
  }

  function Indented(lines: seq<string>): string {
    if lines == [] then "" else "  " + lines[0] + "\n" + Indented(lines[1..])
  }

  // What stands between the two marker lines.
  function Body(config: string, t: Texts): string {
    "\n  " + t.on + "\n" + Indented(Split(config, '\n')) + "  "
  }

  function Block(config: string, t: Texts): string {
    "\n  " + (t.begin + Body(config, t) + t.end + "\n")
  }

  // The place of the block: before the first anchor, else before the second.
  function Place(s: string, t: Texts): Option<nat> {
    if Index(s, t.first).Some? then Index(s, t.first) else Index(s, t.second)
  }

  function Patch(vhost: string, config: string, enabled: bool, t: Texts): string {
    var s := Cleaned(vhost, t);
    if !enabled then s
    else match Place(s, t)
      case None => s
      case Some(i) => s[..i] + Block(config, t) + s[i..]
  }

  function PatchPageSpeed(vhost: string, config: string, enabled: bool): string {
    Patch(vhost, config, enabled, PAGESPEED)
  }

  /******* What the texts need to be like *******/

  ghost predicate Marker(s: string) {
    && s != "" && s[0] == '#' && !Space(s[|s| - 1])
    && forall k :: 0 <= k < |s| ==> s[k] != '\n'
  }

  // A newline, then a text that has no newline any more once it has something solid, and
  // that is not a shift of itself.
  ghost predicate Anchor(s: string) {
    && |s| > 1 && s[0] == '\n'
    && (forall j, k :: 0 <= j < k < |s| && !Space(s[j]) ==> s[k] != '\n')
    && (exists k :: 0 <= k < |s| - 1 && s[k + 1] != s[k])
  }

  ghost predicate WellFormed(t: Texts) {
    && Marker(t.begin) && Marker(t.end) && Anchor(t.first) && Anchor(t.second)
    && (exists k :: 0 <= k < |t.second| && k + 1 < |t.first| && t.first[k + 1] != t.second[k])
    && '#' !in t.on
  }

  lemma BeginIsMarker()
    ensures Marker(PAGESPEED.begin)
  {
  }

  lemma EndIsMarker()
    ensures Marker(PAGESPEED.end)
  {
  }

  lemma AnchorsAreAnchors()
    ensures Anchor(PAGESPEED.first) && Anchor(PAGESPEED.second)
    ensures PAGESPEED.first[3 + 1] != PAGESPEED.second[3]
  {
    assert PAGESPEED.first[1 + 1] != PAGESPEED.first[1];
    assert PAGESPEED.second[0 + 1] != PAGESPEED.second[0];
  }

  lemma OnHasNoHash()
    ensures '#' !in PAGESPEED.on
  {
  }

  lemma PartsAreWellFormed(t: Texts, k: nat)
    requires Marker(t.begin) && Marker(t.end) && Anchor(t.first) && Anchor(t.second) && '#' !in t.on
    requires k < |t.second| && k + 1 < |t.first| && t.first[k + 1] != t.second[k]
    ensures WellFormed(t)
  {
  }

  lemma PageSpeedIsWellFormed()
    ensures WellFormed(PAGESPEED)
  {
    BeginIsMarker();
    EndIsMarker();
    AnchorsAreAnchors();
    OnHasNoHash();
    PartsAreWellFormed(PAGESPEED, 3);
  }

  /******* The shapes a vhost takes *******/

  // A vhost without a block and with an anchor at i.
  ghost predicate Suitable(v: string, i: nat, t: Texts) {
    i <= |v| && !Contains(v, t.begin) && Place(v, t) == Some(i)
  }

  // Once a block has been taken out, the blanks in front of the anchor are one newline.
  function Front(v: string, i: nat, touched: bool): string
    requires i <= |v|
  {
    if touched then v[..RunStart(v, i)] + "\n" else v[..i]
  }

  function Shape(v: string, i: nat, touched: bool, on: Option<string>, t: Texts): string
    requires i <= |v|
  {
    Front(v, i, touched) + (if on.Some? then Block(on.value, t) else "") + v[i..]
  }

  /******* Taking the block out *******/

  lemma {:induction false} IndentedHasNoHash(lines: seq<string>)
    requires forall l :: l in lines ==> '#' !in l
    ensures '#' !in Indented(lines)
  {
    if lines != [] {
      IndentedHasNoHash(lines[1..]);
    }
  }

  lemma {:induction false} PartsHaveNoHash(s: string, c: char)
    requires '#' !in s
    ensures forall p :: p in Split(s, c) ==> '#' !in p
  {
    if s != [] {
      PartsHaveNoHash(s[1..], c);
      var rest := Split(s[1..], c);
      assert rest[0] in rest && forall p :: p in rest[1..] ==> p in rest;
    }
  }

  lemma BodyHasNoHash(config: string, t: Texts)
    requires WellFormed(t) && '#' !in config
    ensures '#' !in Body(config, t)
  {
    PartsHaveNoHash(config, '\n');
    IndentedHasNoHash(Split(config, '\n'));
  }

  // A block in s: blanks from n on, the begin marker at b, the end marker at e, a line end.
  ghost predicate Laid(s: string, n: nat, b: nat, e: nat, t: Texts) {
    && n <= b && b + |t.begin| <= e && e + |t.end| < |s|
    && (forall j :: n <= j < b ==> Space(s[j])) && (exists j :: n <= j < b && s[j] == '\n')
    && (n > 0 ==> !Space(s[n - 1]))
    && At(s, t.begin, b) && At(s, t.end, e) && s[e + |t.end|] == '\n'
    && (forall j :: b + |t.begin| <= j < e ==> s[j] != '#')
    && (forall p: nat :: p + |t.begin| <= n ==> !At(s, t.begin, p))
  }

  lemma FirstBegin(s: string, n: nat, b: nat, e: nat, t: Texts)
    requires Laid(s, n, b, e, t) && Marker(t.begin)
    ensures Index(s, t.begin) == Some(b)
  {
    var pat := t.begin;
    var x :| n <= x < b && s[x] == '\n';
    forall p: nat | p < b
      ensures !At(s, pat, p)
    {
      AtMeans(s, pat, p);
    }
    FirstIsIndex(s, pat, b);
  }

  lemma FirstEnd(s: string, from: nat, e: nat, pat: string)
    requires Marker(pat) && from <= e && At(s, pat, e) && forall j :: from <= j < e ==> s[j] != '#'
    ensures IndexFrom(s, pat, from) == Some(e)
  {
    forall p: nat | from <= p < e
      ensures !At(s, pat, p)
    {
      AtMeans(s, pat, p);
    }
  }

  lemma RunStartIs(s: string, b: nat, r: nat)
    requires r <= b <= |s| && (forall j :: r <= j < b ==> Space(s[j])) && (r > 0 ==> !Space(s[r - 1]))
    ensures RunStart(s, b) == r
  {
  }

  lemma FirstBlockIs(s: string, n: nat, b: nat, e: nat, t: Texts)
    requires WellFormed(t) && Laid(s, n, b, e, t)
    ensures FirstBlock(s, t) == Some((n, e + |t.end| + 1))
  {
    FirstBegin(s, n, b, e, t);
    FirstEnd(s, b + |t.begin|, e, t.end);
    RunStartIs(s, b, n);
  }

  lemma NothingToClean(s: string, t: Texts)
    requires !Contains(s, t.begin)
    ensures Cleaned(s, t) == s
  {
  }

  lemma CleanOnce(s: string, t: Texts, n: nat, m: nat)
    requires FirstBlock(s, t) == Some((n, m)) && n <= |s| && m <= |s| && Cleaned(s[m..], t) == s[m..]
    ensures Cleaned(s, t) == s[..n] + "\n" + s[m..]
  {
  }

  // Only a newline remains of what is between the text and the rest.
  lemma BlockIsTakenOut(s: string, n: nat, b: nat, e: nat, t: Texts)
    requires WellFormed(t) && Laid(s, n, b, e, t)
    requires !Contains(s[e + |t.end| + 1..], t.begin)
    ensures Cleaned(s, t) == s[..n] + "\n" + s[e + |t.end| + 1..]
  {
    var m := e + |t.end| + 1;
    FirstBlockIs(s, n, b, e, t);
    NothingToClean(s[m..], t);
    CleanOnce(s, t, n, m);
  }

  lemma Parts(a: string, b: string, c: string, s: string)
    requires s == a + b + c
    ensures |a| + |b| <= |s| && At(s, a, 0) && At(s, b, |a|) && At(s, c, |a| + |b|)
    ensures s[|a| + |b|..] == c && s[..|a|] == a
  {
  }

  // The parts of a block and where they are.
  lemma BlockParts(gap: string, begin: string, body: string, end: string)
    ensures
      var block := gap + (begin + body + end + "\n");
      var b := |gap| + |begin|;
      && At(block, gap, 0) && At(block, begin, |gap|) && At(block, body, b) && At(block, end, b + |body|)
      && |block| == b + |body| + |end| + 1 && block[|block| - 1] == '\n'
  {
    var inner := begin + body + end + "\n";
    Parts(gap, inner, "", gap + inner);
    assert gap + inner + "" == gap + inner;
    Parts(begin, body, end + "\n", begin + body + (end + "\n"));
    assert begin + body + (end + "\n") == inner;
    assert At(inner, end, |begin| + |body|);
    AtInside(gap + inner, inner, |gap|, begin, 0);
    AtInside(gap + inner, inner, |gap|, body, |begin|);
    AtInside(gap + inner, inner, |gap|, end, |begin| + |body|);
  }

  // The positions of the block in a text.
  lemma BlockPositions(front: string, config: string, rest: string, t: Texts, s: string)
    requires s == front + Block(config, t) + rest
    ensures
      var f, body := |front|, Body(config, t);
      var b := f + 3;
      var e := b + |t.begin| + |body|;
      && At(s, "\n  ", f) && At(s, t.begin, b) && At(s, body, b + |t.begin|) && At(s, t.end, e)
      && e + |t.end| < |s| && s[e + |t.end|] == '\n' && s[e + |t.end| + 1..] == rest && s[..f] == front
  {
    var block, body := Block(config, t), Body(config, t);
    Parts(front, block, rest, s);
    BlockParts("\n  ", t.begin, body, t.end);
    AtInside(s, block, |front|, "\n  ", 0);
    AtInside(s, block, |front|, t.begin, 3);
    AtInside(s, block, |front|, body, 3 + |t.begin|);
    AtInside(s, block, |front|, t.end, 3 + |t.begin| + |body|);
    assert s[|front| + (|block| - 1)] == block[|block| - 1];
  }

  lemma NotInTheRest(v: string, i: nat, pat: string)
    requires i <= |v| && !Contains(v, pat)
    ensures !Contains(v[i..], pat)
  {
    forall p: nat | At(v[i..], pat, p)
      ensures At(v, pat, i + p)
    {
      forall k | 0 <= k < |pat|
        ensures v[i + p + k] == pat[k]
      {
        assert v[i..][p + k] == pat[k];
      }
    }
  }

  lemma FrontEnds(v: string, i: nat, touched: bool)
    requires i <= |v|
    ensures
      var r, front := RunStart(v, i), Front(v, i, touched);
      && r <= |front| && front[..r] == v[..r] && (forall j :: r <= j < |front| ==> Space(front[j]))
      && (r > 0 ==> !Space(front[r - 1]))
  {
  }

  lemma HashlessBody(s: string, from: nat, body: string)
    requires At(s, body, from) && '#' !in body
    ensures forall j :: from <= j < from + |body| ==> s[j] != '#'
  {
    forall j | from <= j < from + |body|
      ensures s[j] != '#'
    {
      assert s[from + (j - from)] == body[j - from] && body[j - from] in body;
    }
  }

  lemma BlanksUpTo(s: string, r: nat, front: string)
    requires r <= |front| <= |s| && s[..|front|] == front && At(s, "\n  ", |front|)
    requires forall j :: r <= j < |front| ==> Space(front[j])
    ensures forall j :: r <= j < |front| + 3 ==> Space(s[j])
    ensures s[|front|] == '\n'
  {
    var f := |front|;
    assert s[f + 0] == "\n  "[0] && s[f + 1] == "\n  "[1] && s[f + 2] == "\n  "[2];
    assert forall j :: 0 <= j < f ==> s[j] == s[..f][j];
  }

  lemma SamePrefixOfPrefix(v: string, s: string, r: nat, front: string)
    requires r <= |v| && r <= |front| <= |s| && s[..|front|] == front && front[..r] == v[..r]
    ensures s[..r] == v[..r] && forall j :: 0 <= j < r ==> s[j] == v[j]
  {
    assert s[..r] == s[..|front|][..r];
    assert forall j :: 0 <= j < r ==> s[j] == s[..r][j];
  }

  // No begin marker ends in front of the blanks.
  lemma NoBeginBefore(v: string, r: nat, front: string, s: string, pat: string)
    requires r <= |v| && r <= |front| <= |s| && front[..r] == v[..r] && s[..|front|] == front
    requires !Contains(v, pat)
    ensures s[..r] == v[..r] && forall p: nat :: p + |pat| <= r ==> !At(s, pat, p)
  {
    SamePrefixOfPrefix(v, s, r, front);
    SamePrefix(v, s, r, pat);
  }

  // A block behind a text whose end is blank from r on is laid out there.
  lemma LaidBehind(front: string, r: nat, config: string, rest: string, t: Texts, s: string) returns (b: nat, e: nat)
    requires '#' !in Body(config, t) && s == front + Block(config, t) + rest
    requires r <= |front| && (r > 0 ==> !Space(front[r - 1])) && forall j :: r <= j < |front| ==> Space(front[j])
    requires s[..|front|] == front && forall p: nat :: p + |t.begin| <= r ==> !At(s, t.begin, p)
    ensures Laid(s, r, b, e, t) && s[e + |t.end| + 1..] == rest
  {
    var body := Body(config, t);
    b := |front| + 3;
    e := b + |t.begin| + |body|;
    BlockPositions(front, config, rest, t, s);
    HashlessBody(s, b + |t.begin|, body);
    BlanksUpTo(s, r, front);
  }

  lemma LaidInShape(v: string, i: nat, touched: bool, config: string, t: Texts) returns (b: nat, e: nat)
    requires WellFormed(t) && i <= |v| && !Contains(v, t.begin) && '#' !in config
    ensures
      var s, r := Shape(v, i, touched, Some(config), t), RunStart(v, i);
      Laid(s, r, b, e, t) && s[..r] == v[..r] && s[e + |t.end| + 1..] == v[i..]
  {
    var front, s := Front(v, i, touched), Shape(v, i, touched, Some(config), t);
    var r := RunStart(v, i);
    FrontEnds(v, i, touched);
    BodyHasNoHash(config, t);
    Parts(front, Block(config, t), v[i..], s);
    NoBeginBefore(v, r, front, s, t.begin);
    b, e := LaidBehind(front, r, config, v[i..], t, s);
  }

  lemma TouchedShape(v: string, i: nat, t: Texts)
    requires i <= |v|
    ensures Shape(v, i, true, None, t) == v[..RunStart(v, i)] + "\n" + v[i..]
    ensures |Front(v, i, true)| == RunStart(v, i) + 1
  {
  }

  lemma CleanedEnabled(v: string, i: nat, touched: bool, config: string, t: Texts)
    requires WellFormed(t) && i <= |v| && !Contains(v, t.begin) && '#' !in config
    ensures Cleaned(Shape(v, i, touched, Some(config), t), t) == Shape(v, i, true, None, t)
  {
    TouchedShape(v, i, t);
    NotInTheRest(v, i, t.begin);
    var s := Shape(v, i, touched, Some(config), t);
    var b, e := LaidInShape(v, i, touched, config, t);
    BlockIsTakenOut(s, RunStart(v, i), b, e, t);
  }

  /******* Putting it in *******/

  // Behind the newline the text is the original from i on.
  lemma BehindNewline(v: string, i: nat, r: nat, u: string, j: nat)
    requires r <= i <= |v| && u == v[..r] + "\n" + v[i..] && r < j < |u|
    ensures u[j] == v[j - 1 - r + i]
  {
  }

  lemma ShiftedBehind(v: string, i: nat, r: nat, pat: string, p: nat, u: string)
    requires r <= i <= |v| && u == v[..r] + "\n" + v[i..] && At(u, pat, p) && p > r
    ensures At(v, pat, p - 1 - r + i)
  {
    forall k | 0 <= k < |pat|
      ensures v[p - 1 - r + i + k] == pat[k]
    {
      assert u[p + k] == pat[k];
      BehindNewline(v, i, r, u, p + k);
    }
  }

  lemma ShiftedAtNewline(v: string, i: nat, r: nat, pat: string, u: string)
    requires r <= i <= |v| && u == v[..r] + "\n" + v[i..] && At(u, pat, r) && pat != ""
    ensures pat[0] == '\n' && i + |pat| - 1 <= |v| && forall k :: 1 <= k < |pat| ==> v[i + k - 1] == pat[k]
  {
    AtMeans(u, pat, r);
    forall k | 1 <= k < |pat|
      ensures v[i + k - 1] == pat[k]
    {
      assert u[r + k] == pat[k];
      BehindNewline(v, i, r, u, r + k);
    }
  }

  lemma ShiftedInFront(v: string, r: nat, pat: string, p: nat, u: string)
    requires r <= |v| && r <= |u| && u[..r] == v[..r] && At(u, pat, p) && p + |pat| <= r
    ensures At(v, pat, p)
  {
    assert forall j :: 0 <= j < r ==> u[j] == u[..r][j] == v[..r][j] == v[j];
    SamePrefix(v, u, r, pat);
  }

  // No occurrence goes from a solid character across the newline.
  lemma NotAcross(u: string, r: nat, pat: string, p: nat)
    requires 0 < r < |u| && u[r] == '\n' && !Space(u[r - 1]) && p < r < p + |pat|
    requires forall j, k :: 0 <= j < k < |pat| && !Space(pat[j]) ==> pat[k] != '\n'
    ensures !At(u, pat, p)
  {
    AtMeans(u, pat, p);
    assert Space(pat[r - 1 - p]) || pat[r - p] != '\n';
  }

  // How an occurrence in the touched text relates to the original.
  lemma Shifted(v: string, i: nat, r: nat, pat: string, p: nat, u: string)
    requires r <= i <= |v| && u == v[..r] + "\n" + v[i..] && pat != ""
    requires (r > 0 ==> !Space(v[r - 1])) && (forall j, k :: 0 <= j < k < |pat| && !Space(pat[j]) ==> pat[k] != '\n')
    ensures At(u, pat, p) ==>
      || (p > r && At(v, pat, p - 1 - r + i))
      || (p + |pat| <= r && At(v, pat, p))
      || (p == r && pat[0] == '\n' && i + |pat| - 1 <= |v| && forall k :: 1 <= k < |pat| ==> v[i + k - 1] == pat[k])
  {
    assert u[..r] == v[..r] && u[r] == '\n' && (r > 0 ==> u[r - 1] == v[r - 1]);
    if At(u, pat, p) {
      if p > r {
        ShiftedBehind(v, i, r, pat, p, u);
      } else if p + |pat| <= r {
        ShiftedInFront(v, r, pat, p, u);
      } else if p == r {
        ShiftedAtNewline(v, i, r, pat, u);
      } else {
        NotAcross(u, r, pat, p);
      }
    }
  }

  lemma NoBeginInDisabled(v: string, i: nat, touched: bool, t: Texts)
    requires WellFormed(t) && i <= |v| && !Contains(v, t.begin)
    ensures !Contains(Shape(v, i, touched, None, t), t.begin)
  {
    var u, r := Shape(v, i, touched, None, t), RunStart(v, i);
    if touched {
      assert u == v[..r] + "\n" + v[i..];
      forall p: nat
        ensures !At(u, t.begin, p)
      {
        Shifted(v, i, r, t.begin, p, u);
      }
    } else {
      assert u == v;
    }
  }

  lemma CleanedDisabled(v: string, i: nat, touched: bool, t: Texts)
    requires WellFormed(t) && i <= |v| && !Contains(v, t.begin)
    ensures Cleaned(Shape(v, i, touched, None, t), t) == Shape(v, i, touched, None, t)
  {
    NoBeginInDisabled(v, i, touched, t);
    NothingToClean(Shape(v, i, touched, None, t), t);
  }

  // A touched text has its anchor right behind the newline.
  // The text behind the newline is where it was.
  lemma TailIsMoved(v: string, i: nat, r: nat, pat: string, u: string)
    requires r <= i <= |v| && u == v[..r] + "\n" + v[i..] && At(v, pat, i)
    ensures At(u, pat, r + 1)
  {
    assert forall j :: r < j < |u| ==> u[j] == v[j - 1 - r + i];
    forall k | 0 <= k < |pat|
      ensures u[r + 1 + k] == pat[k]
    {
      assert v[i + k] == pat[k];
    }
  }

  // An anchor is not in front of the newline either: it would be a shift of itself.
  lemma NoAnchorBefore(v: string, i: nat, pat: string, u: string, p: nat)
    requires i <= |v| && Anchor(pat) && At(v, pat, i) && forall j: nat :: j < i ==> !At(v, pat, j)
    requires u == v[..RunStart(v, i)] + "\n" + v[i..] && p < RunStart(v, i) + 1
    ensures !At(u, pat, p)
  {
    Shifted(v, i, RunStart(v, i), pat, p, u);
    if p == RunStart(v, i) {
      NoShift(v, i, pat);
    }
  }

  lemma NoShift(v: string, i: nat, pat: string)
    requires Anchor(pat) && At(v, pat, i)
    ensures !forall k :: 1 <= k < |pat| ==> v[i + k - 1] == pat[k]
  {
    var x :| 0 <= x < |pat| - 1 && pat[x + 1] != pat[x];
    assert v[i + x] == pat[x];
    assert v[i + (x + 1) - 1] != pat[x + 1];
  }

  lemma TouchedAnchor(v: string, i: nat, pat: string, u: string)
    requires i <= |v| && Anchor(pat) && Index(v, pat) == Some(i)
    requires u == v[..RunStart(v, i)] + "\n" + v[i..]
    ensures Index(u, pat) == Some(RunStart(v, i) + 1)
  {
    var r := RunStart(v, i);
    TailIsMoved(v, i, r, pat, u);
    forall p: nat | p < r + 1
      ensures !At(u, pat, p)
    {
      NoAnchorBefore(v, i, pat, u, p);
    }
    FirstIsIndex(u, pat, r + 1);
  }

  // The second anchor is not the first one shifted.
  lemma NotTheFirst(v: string, i: nat, t: Texts)
    requires WellFormed(t) && At(v, t.second, i)
    ensures !forall k :: 1 <= k < |t.first| ==> i + k - 1 < |v| && v[i + k - 1] == t.first[k]
  {
    var x :| 0 <= x < |t.second| && x + 1 < |t.first| && t.first[x + 1] != t.second[x];
    assert v[i + x] == t.second[x];
    assert v[i + (x + 1) - 1] != t.first[x + 1];
  }

  // A touched text gains no first anchor in front of the second one.
  lemma NoFirstAt(v: string, i: nat, t: Texts, u: string, p: nat)
    requires WellFormed(t) && i <= |v| && !Contains(v, t.first) && At(v, t.second, i)
    requires u == v[..RunStart(v, i)] + "\n" + v[i..]
    ensures !At(u, t.first, p)
  {
    Shifted(v, i, RunStart(v, i), t.first, p, u);
    NotTheFirst(v, i, t);
  }

  lemma TouchedHasNoFirst(v: string, i: nat, t: Texts, u: string)
    requires WellFormed(t) && i <= |v| && !Contains(v, t.first) && Index(v, t.second) == Some(i)
    requires u == v[..RunStart(v, i)] + "\n" + v[i..]
    ensures !Contains(u, t.first)
  {
    forall p: nat
      ensures !At(u, t.first, p)
    {
      NoFirstAt(v, i, t, u, p);
    }
  }

  lemma TouchedPlace(v: string, i: nat, t: Texts, u: string)
    requires WellFormed(t) && Suitable(v, i, t) && u == v[..RunStart(v, i)] + "\n" + v[i..]
    ensures Place(u, t) == Some(RunStart(v, i) + 1)
  {
    if Index(v, t.first).Some? {
      TouchedAnchor(v, i, t.first, u);
    } else {
      TouchedAnchor(v, i, t.second, u);
      TouchedHasNoFirst(v, i, t, u);
    }
  }

  lemma PlaceIsKept(v: string, i: nat, touched: bool, t: Texts)
    requires WellFormed(t) && Suitable(v, i, t)
    ensures Place(Shape(v, i, touched, None, t), t) == Some(|Front(v, i, touched)|)
  {
    if touched {
      TouchedShape(v, i, t);
      TouchedPlace(v, i, t, Shape(v, i, true, None, t));
    } else {
      UntouchedIsTheOriginal(v, i, t);
    }
  }

  /******* Every sequence of updates *******/

  datatype Update = Update(enabled: bool, config: string)

  function Wanted(u: Update): Option<string> {
    if u.enabled then Some(u.config) else None
  }

  lemma InsertedAt(front: string, rest: string, block: string, s: string)
    requires s == front + "" + rest
    ensures s[..|front|] + block + s[|front|..] == front + block + rest
  {
    assert s[..|front|] == front && s[|front|..] == rest;
  }

  lemma OneUpdate(v: string, i: nat, touched: bool, on: Option<string>, u: Update, t: Texts)
    requires WellFormed(t) && Suitable(v, i, t) && (on.Some? ==> '#' !in on.value)
    ensures Patch(Shape(v, i, touched, on, t), u.config, u.enabled, t) ==
      Shape(v, i, touched || on.Some?, Wanted(u), t)
  {
    var after := touched || on.Some?;
    if on.Some? {
      CleanedEnabled(v, i, touched, on.value, t);
    } else {
      CleanedDisabled(v, i, touched, t);
    }
    PlaceIsKept(v, i, after, t);
    InsertedAt(Front(v, i, after), v[i..], Block(u.config, t), Shape(v, i, after, None, t));
  }

  function PatchAll(vhost: string, updates: seq<Update>, t: Texts): string
    decreases |updates|
  {
    if updates == [] then vhost
    else PatchAll(Patch(vhost, updates[0].config, updates[0].enabled, t), updates[1..], t)
  }

  function LastWanted(updates: seq<Update>, on: Option<string>): Option<string>
    decreases |updates|
  {
    if updates == [] then on else LastWanted(updates[1..], Wanted(updates[0]))
  }

  // Some block has been taken out again, or replaced.
  function Touched(updates: seq<Update>, touched: bool, on: bool): bool
    decreases |updates|
  {
    if updates == [] then touched else Touched(updates[1..], touched || on, updates[0].enabled)
  }

  lemma {:induction false} ShapesAreClosed(v: string, i: nat, touched: bool, on: Option<string>, updates: seq<Update>, t: Texts)
    requires WellFormed(t) && Suitable(v, i, t) && (on.Some? ==> '#' !in on.value)
    requires forall u :: u in updates ==> '#' !in u.config
    ensures PatchAll(Shape(v, i, touched, on, t), updates, t) ==
      Shape(v, i, Touched(updates, touched, on.Some?), LastWanted(updates, on), t)
    decreases |updates|
  {
    if updates != [] {
      assert updates[0] in updates;
      OneUpdate(v, i, touched, on, updates[0], t);
      ShapesAreClosed(v, i, touched || on.Some?, Wanted(updates[0]), updates[1..], t);
    }
  }

  lemma UntouchedIsTheOriginal(v: string, i: nat, t: Texts)
    requires i <= |v|
    ensures Shape(v, i, false, None, t) == v
  {
  }

  // The two markers have their hash in front only, and differ somewhere.
  ghost predicate ToldApart(t: Texts) {
    && (forall k :: 0 < k < |t.begin| ==> t.begin[k] != '#') && (forall k :: 0 < k < |t.end| ==> t.end[k] != '#')
    && exists k :: 0 <= k < |t.begin| && k < |t.end| && t.begin[k] != t.end[k]
  }

  lemma BeginHasOneHash()
    ensures forall k :: 0 < k < |PAGESPEED.begin| ==> PAGESPEED.begin[k] != '#'
  {
  }

  lemma EndHasOneHash()
    ensures forall k :: 0 < k < |PAGESPEED.end| ==> PAGESPEED.end[k] != '#'
  {
  }

  lemma MarkersAreToldApart()
    ensures ToldApart(PAGESPEED)
  {
    BeginHasOneHash();
    EndHasOneHash();
    assert PAGESPEED.begin[31] == 'b' && PAGESPEED.end[31] == 'e';
  }

  lemma InTheTail(s: string, m: nat, pat: string, p: nat)
    requires m <= p && m <= |s|
    ensures At(s, pat, p) ==> At(s[m..], pat, p - m)
  {
    if At(s, pat, p) {
      forall k | 0 <= k < |pat|
        ensures s[m..][p - m + k] == pat[k]
      {
        assert s[p + k] == pat[k];
      }
    }
  }

  // The end marker is no begin marker.
  lemma EndIsNoBegin(s: string, e: nat, t: Texts)
    requires ToldApart(t) && At(s, t.end, e)
    ensures !At(s, t.begin, e)
  {
    var x :| 0 <= x < |t.begin| && x < |t.end| && t.begin[x] != t.end[x];
    assert s[e + x] == t.end[x];
  }

  // There is no second begin marker behind the one of the block.
  lemma NoSecondBegin(s: string, n: nat, b: nat, e: nat, t: Texts, p: nat)
    requires WellFormed(t) && ToldApart(t) && Laid(s, n, b, e, t) && p > b
    requires !Contains(s[e + |t.end| + 1..], t.begin)
    ensures !At(s, t.begin, p)
  {
    if p >= e + |t.end| + 1 {
      InTheTail(s, e + |t.end| + 1, t.begin, p);
    } else if p == e {
      EndIsNoBegin(s, e, t);
    } else {
      NoHashAt(s, b, e, t, p);
    }
  }

  // Between the two markers and in them there is no other hash to start a marker.
  lemma NoHashAt(s: string, b: nat, e: nat, t: Texts, p: nat)
    requires WellFormed(t) && ToldApart(t) && At(s, t.begin, b) && At(s, t.end, e) && b + |t.begin| <= e && e + |t.end| < |s|
    requires s[e + |t.end|] == '\n' && forall j :: b + |t.begin| <= j < e ==> s[j] != '#'
    requires b < p <= e + |t.end| && p != e
    ensures !At(s, t.begin, p)
  {
    AtMeans(s, t.begin, b);
    AtMeans(s, t.begin, p);
    AtMeans(s, t.end, e);
    assert s[p] != '#';
  }

  // The text occurs at exactly one position.
  ghost predicate Once(s: string, pat: string) {
    exists b: nat :: At(s, pat, b) && forall p: nat :: p != b ==> !At(s, pat, p)
  }

  lemma {:induction false} LastWantedHasNoHash(updates: seq<Update>, on: Option<string>)
    requires (on.Some? ==> '#' !in on.value) && forall u :: u in updates ==> '#' !in u.config
    ensures LastWanted(updates, on).Some? ==> '#' !in LastWanted(updates, on).value
    decreases |updates|
  {
    if updates != [] {
      assert updates[0] in updates;
      LastWantedHasNoHash(updates[1..], Wanted(updates[0]));
    }
  }

  /** A shape holds exactly one begin marker when it is enabled and none when it is not. */
  lemma OneBlockWhenEnabled(v: string, i: nat, touched: bool, on: Option<string>, t: Texts)
    requires WellFormed(t) && ToldApart(t) && i <= |v| && !Contains(v, t.begin) && (on.Some? ==> '#' !in on.value)
    ensures if on.Some? then Once(Shape(v, i, touched, on, t), t.begin) else !Contains(Shape(v, i, touched, on, t), t.begin)
  {
    var s := Shape(v, i, touched, on, t);
    if on.None? {
      NoBeginInDisabled(v, i, touched, t);
    } else {
      NotInTheRest(v, i, t.begin);
      var b, e := LaidInShape(v, i, touched, on.value, t);
      FirstBegin(s, RunStart(v, i), b, e, t);
      forall p: nat | p != b
        ensures !At(s, t.begin, p)
      {
        if p > b {
          NoSecondBegin(s, RunStart(v, i), b, e, t, p);
        }
      }
    }
  }

  // What an accepted request writes.
  ghost predicate Writes(r: PageSpeedSettings.Update, u: Update) {
    u.enabled == r.enabled && if r.enabled then WritesText(r, u.config) else u.config == ""
  }

  ghost predicate WritesText(r: PageSpeedSettings.Update, config: string) {
    && PageSpeedSettings.Acceptable(r)
    && exists n: PageSpeedSettings.Normalized :: PageSpeedSettings.Normalizes(r, n) && n.config == config
  }

  lemma WrittenHasNoHash(r: PageSpeedSettings.Update, u: Update)
    requires Writes(r, u)
    ensures '#' !in u.config
  {
    if r.enabled {
      var n: PageSpeedSettings.Normalized :| PageSpeedSettings.Normalizes(r, n) && n.config == u.config;
      PageSpeedSettings.AcceptedTextHasNoHash(r, n);
    }
  }

  /** For a vhost with an anchor and without the begin marker, any sequence of accepted requests
      ends with the original text, the blanks in front of the anchor possibly reduced to one
      newline, and exactly the block of the last configuration if the last request enabled it,
      none otherwise. */
  lemma EverySequenceEndsInTheLastUpdate(v: string, i: nat, requests: seq<PageSpeedSettings.Update>, updates: seq<Update>)
    requires Suitable(v, i, PAGESPEED) && |requests| == |updates|
    requires forall k :: 0 <= k < |updates| ==> Writes(requests[k], updates[k])
    ensures PatchAll(v, updates, PAGESPEED) ==
      Shape(v, i, Touched(updates, false, false), LastWanted(updates, None), PAGESPEED)
    ensures
      if LastWanted(updates, None).Some? then Once(PatchAll(v, updates, PAGESPEED), PAGESPEED.begin)
      else !Contains(PatchAll(v, updates, PAGESPEED), PAGESPEED.begin)
  {
    var t := PAGESPEED;
    PageSpeedIsWellFormed();
    MarkersAreToldApart();
    forall u | u in updates
      ensures '#' !in u.config
    {
      var k :| 0 <= k < |updates| && updates[k] == u;
      WrittenHasNoHash(requests[k], u);
    }
    LastWantedHasNoHash(updates, None);
    OneBlockWhenEnabled(v, i, Touched(updates, false, false), LastWanted(updates, None), t);
    UntouchedIsTheOriginal(v, i, t);
    ShapesAreClosed(v, i, false, None, updates, t);
  }

  /** Applying the same accepted configuration again is a fixed point from the second time on. */
  lemma ReapplyingSettles(v: string, i: nat, r: PageSpeedSettings.Update, config: string)
    requires Suitable(v, i, PAGESPEED) && WritesText(r, config)
    ensures
      var once := PatchPageSpeed(v, config, true);
      var twice := PatchPageSpeed(once, config, true);
      PatchPageSpeed(twice, config, true) == twice
  {
    var t, u := PAGESPEED, Update(true, config);
    WrittenHasNoHash(r.(enabled := true), u);
    PageSpeedIsWellFormed();
    UntouchedIsTheOriginal(v, i, t);
    OneUpdate(v, i, false, None, u, t);
    OneUpdate(v, i, false, Some(config), u, t);
    OneUpdate(v, i, true, Some(config), u, t);
  }
}
