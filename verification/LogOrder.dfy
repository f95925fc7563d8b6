/**
 The order readLogs puts its lines in (internal/gateway/logs.go): known times first,
 oldest first, then the lines without a time, each group as it was read.
 */
module LogOrder {
  import opened Sorting

  // timestamp is "" where no time is known.
  datatype LogLine = LogLine(source: string, timestamp: string, unknown: bool, line: string)

  // The comparator given to sort.SliceStable.
  predicate Less(a: LogLine, b: LogLine) {
    if a.timestamp == "" then false
    else if b.timestamp == "" then true
    else Below(a.timestamp, b.timestamp)
  }

  /** The comparator is a strict weak order whose ties are the lines with equal timestamps. */
  lemma StrictWeakOrder(a: LogLine, b: LogLine, c: LogLine)
    ensures !Less(a, a)
    ensures Less(a, b) && Less(b, c) ==> Less(a, c)
    ensures !Less(a, b) && !Less(b, a) <==> a.timestamp == b.timestamp
    ensures !Less(a, b) && !Less(b, c) ==> !Less(a, c)
  {
    BelowIsTotal(a.timestamp, b.timestamp);
    BelowIsTotal(b.timestamp, c.timestamp);
    BelowIsTotal(a.timestamp, c.timestamp);
    BelowIsTotal(a.timestamp, a.timestamp);
    if Less(a, b) && Less(b, c) && c.timestamp != "" {
      BelowIsTransitive(a.timestamp, b.timestamp, c.timestamp);
    }
    if !Less(a, b) && !Less(b, c) && Less(a, c) && b.timestamp != "" && c.timestamp != "" {
      BelowIsTransitive(a.timestamp, c.timestamp, b.timestamp);
    }
  }

  ghost predicate InOrder(s: seq<LogLine>) {
    forall i, j :: 0 <= i < j < |s| ==> !Less(s[j], s[i])
  }

  // The lines with one timestamp, as they come.
  function With(s: seq<LogLine>, timestamp: string): seq<LogLine> {
    if s == [] then []
    else (if s[0].timestamp == timestamp then [s[0]] else []) + With(s[1..], timestamp)
  }

  // What a stable sort delivers.
  ghost predicate StableSortOf(before: seq<LogLine>, after: seq<LogLine>) {
    InOrder(after) && forall t :: With(after, t) == With(before, t)
  }

  function Inserted(s: seq<LogLine>, x: LogLine): seq<LogLine> {
    if s == [] || !Less(s[0], x) then [x] + s else [s[0]] + Inserted(s[1..], x)
  }

  // sort.SliceStable
  function StableSorted(s: seq<LogLine>): seq<LogLine> {
    if s == [] then [] else Inserted(StableSorted(s[1..]), s[0])
  }

  lemma {:induction false} InsertedHas(s: seq<LogLine>, x: LogLine)
    ensures forall y :: y in Inserted(s, x) <==> y == x || y in s
  {
    if s != [] && Less(s[0], x) {
      InsertedHas(s[1..], x);
    }
  }

  lemma {:induction false} InsertedInOrder(s: seq<LogLine>, x: LogLine)
    requires InOrder(s)
    ensures InOrder(Inserted(s, x))
  {
    if s == [] || !Less(s[0], x) {
      forall i | 0 <= i < |s|
        ensures !Less(s[i], x)
      {
        StrictWeakOrder(s[i], s[0], x);
      }
    } else {
      InsertedInOrder(s[1..], x);
      InsertedHas(s[1..], x);
      var rest := Inserted(s[1..], x);
      forall j | 0 <= j < |rest|
        ensures !Less(rest[j], s[0])
      {
        assert rest[j] in rest;
        StrictWeakOrder(x, s[0], x);
        if rest[j] != x {
          var i :| 0 <= i < |s[1..]| && s[1..][i] == rest[j];
        }
      }
    }
  }

  lemma {:induction false} InsertedStable(s: seq<LogLine>, x: LogLine, t: string)
    ensures With(Inserted(s, x), t) == (if x.timestamp == t then [x] else []) + With(s, t)
  {
    if s == [] || !Less(s[0], x) {
      assert ([x] + s)[1..] == s;
    } else {
      InsertedStable(s[1..], x, t);
      assert ([s[0]] + Inserted(s[1..], x))[1..] == Inserted(s[1..], x);
      StrictWeakOrder(s[0], x, x);
    }
  }

  lemma {:induction false} SortingIsStable(s: seq<LogLine>)
    ensures StableSortOf(s, StableSorted(s))
  {
    if s != [] {
      SortingIsStable(s[1..]);
      InsertedInOrder(StableSorted(s[1..]), s[0]);
      forall t
        ensures With(StableSorted(s), t) == With(s, t)
      {
        InsertedStable(StableSorted(s[1..]), s[0], t);
      }
    }
  }

  lemma {:induction false} WithHas(s: seq<LogLine>, x: LogLine)
    ensures x in s <==> x in With(s, x.timestamp)
  {
    if s != [] {
      WithHas(s[1..], x);
    }
  }

  lemma FirstOfBoth(a: seq<LogLine>, b: seq<LogLine>)
    requires a != [] && InOrder(a) && InOrder(b) && forall t :: With(a, t) == With(b, t)
    ensures b != [] && a[0] == b[0]
  {
    WithHas(a, a[0]);
    WithHas(b, a[0]);
    assert With(a, a[0].timestamp) == With(b, a[0].timestamp);
    WithHas(a, b[0]);
    WithHas(b, b[0]);
    assert With(a, b[0].timestamp) == With(b, b[0].timestamp);
    var i :| 0 <= i < |a| && a[i] == b[0];
    var j :| 0 <= j < |b| && b[j] == a[0];
    StrictWeakOrder(a[0], b[0], a[0]);
    assert a[0].timestamp == b[0].timestamp;
    assert With(a, a[0].timestamp)[0] == a[0] && With(b, b[0].timestamp)[0] == b[0];
  }

  // There is one such result: whatever sorts stably delivers it.
  lemma {:induction false} StableSortIsUnique(a: seq<LogLine>, b: seq<LogLine>)
    requires InOrder(a) && InOrder(b) && forall t :: With(a, t) == With(b, t)
    ensures a == b
  {
    if a == [] {
      if b != [] {
        FirstOfBoth(b, a);
      }
    } else {
      FirstOfBoth(a, b);
      forall t
        ensures With(a[1..], t) == With(b[1..], t)
      {
        var one := if a[0].timestamp == t then [a[0]] else [];
        assert With(a, t) == one + With(a[1..], t) && With(b, t) == one + With(b[1..], t);
        assert With(a[1..], t) == With(a, t)[|one|..] && With(b[1..], t) == With(b, t)[|one|..];
      }
      StableSortIsUnique(a[1..], b[1..]);
    }
  }

  lemma StableSortedIsTheOnlyOne(before: seq<LogLine>, after: seq<LogLine>)
    ensures StableSortOf(before, after) <==> after == StableSorted(before)
  {
    SortingIsStable(before);
    if StableSortOf(before, after) {
      forall t
        ensures With(after, t) == With(StableSorted(before), t)
      {
        assert With(after, t) == With(before, t);
      }
      StableSortIsUnique(after, StableSorted(before));
    }
  }
}
