/**
 validatePHPUpdate of internal/gateway/settings.go: which changes are accepted,
 what the stored row then reads back as, and how far sizes can be trusted.
 */
module PhpUpdate {
  import opened Wrappers
  import opened Numbers
  import opened Text
  import opened Sorting
  import opened PhpSettings

  /******* Sizes *******/

  const KIB := 1024
  const MIB := 1024 * KIB
  const GIB := 1024 * MIB
  const MAX_INT64: int := 0x7FFF_FFFF_FFFF_FFFF

  // An int64 product.
  function Wrapped(x: int): int {
    (x + 0x8000_0000_0000_0000) % 0x1_0000_0000_0000_0000 - 0x8000_0000_0000_0000
  }

  function Unit(c: char): Option<int> {
    if c == 'K' || c == 'k' then Some(KIB)
    else if c == 'M' || c == 'm' then Some(MIB)
    else if c == 'G' || c == 'g' then Some(GIB)
    else None
  }

  predicate IsSize(v: string) {
    |v| >= 2 && Unit(v[|v| - 1]).Some? && forall i :: 0 <= i < |v| - 1 ==> Digit(v[i])
  }

  // sizeBytes: a number too large for an int64 becomes the largest, the product wraps.
  function SizeBytes(v: string): Option<int> {
    if !IsSize(v) then None
    else
      var n := Digits(v[..|v| - 1]);
      Some(Wrapped((if n > MAX_INT64 then MAX_INT64 else n) * Unit(v[|v| - 1]).value))
  }

  // The size the text denotes.
  function Size(v: string): nat
    requires IsSize(v)
  {
    Digits(v[..|v| - 1]) * Unit(v[|v| - 1]).value
  }

  /** sizeBytes is the denoted size exactly when that fits an int64. */
  lemma SizeIsExact(v: string)
    requires IsSize(v)
    ensures SizeBytes(v) == Some(Size(v)) <==> Size(v) <= MAX_INT64
  {
    var n, u := Digits(v[..|v| - 1]), Unit(v[|v| - 1]).value;
    assert u == KIB || u == MIB || u == GIB;
    if n > MAX_INT64 {
      assert n * u >= n by { Larger(n, u); }
    }
  }

  lemma Larger(n: nat, u: nat)
    requires u >= 1
    ensures n * u >= n
  {
  }

  // What a letter stands for, as a power of 1024; no other character is a unit.
  function PowerOf(c: char): nat {
    if c in "Kk" then 1 else if c in "Mm" then 2 else if c in "Gg" then 3 else 0
  }

  function Power(n: nat): nat {
    if n == 0 then 1 else 1024 * Power(n - 1)
  }

  /** A text is a size exactly when it is a number and one of the letters K, M and G; the size is the
      number times 1024, 1024 squared or 1024 cubed, and read as such when it fits an int64. */
  lemma UnitsArePowers(n: string, c: char)
    requires DigitsOnly(n)
    ensures IsSize(n + [c]) <==> n != "" && PowerOf(c) > 0
    ensures IsSize(n + [c]) ==> Size(n + [c]) == Digits(n) * Power(PowerOf(c))
    ensures IsSize(n + [c]) && Digits(n) * Power(PowerOf(c)) <= MAX_INT64 ==>
      SizeBytes(n + [c]) == Some(Digits(n) * Power(PowerOf(c)))
  {
    var v := n + [c];
    assert v[..|v| - 1] == n && v[|v| - 1] == c;
    assert forall i :: 0 <= i < |n| ==> v[i] == n[i];
    assert Power(1) == KIB && Power(2) == MIB && Power(3) == GIB by {
      assert Power(0) == 1;
    }
    if IsSize(v) {
      SizeIsExact(v);
    }
  }

  /** A size of sixteen exbibytes and one kibibyte passes for one kibibyte. */
  lemma WrappedSizePasses() returns (v: string)
    ensures IsSize(v) && Size(v) == 0x1_0000_0000_0000_0400 && SizeBytes(v) == Some(KIB)
  {
    v := KilobytesRead(0x40_0000_0000_0001);
    assert 0x40_0000_0000_0001 * KIB == 0x1_0000_0000_0000_0400;
  }

  lemma KilobytesRead(n: nat) returns (v: string)
    requires n <= MAX_INT64
    ensures IsSize(v) && Size(v) == n * KIB && SizeBytes(v) == Some(Wrapped(n * KIB))
  {
    v := Decimal(n) + "K";
    DecimalReads(n);
    assert v[..|v| - 1] == Decimal(n) && v[|v| - 1] == 'K';
  }

  /******* Keys and their values *******/

  const MEMORY_LIMIT := "memory_limit"
  const MAX_EXECUTION_TIME := "max_execution_time"
  const MAX_INPUT_TIME := "max_input_time"
  const MAX_INPUT_VARS := "max_input_vars"
  const POST_MAX_SIZE := "post_max_size"
  const UPLOAD_MAX_FILESIZE := "upload_max_filesize"
  const TIMEZONE := "date.timezone"
  const ERROR_REPORTING := "error_reporting"
  const MAX_FILE_UPLOADS := "max_file_uploads"
  const CACHE_SIZE := "realpath_cache_size"
  const CACHE_TTL := "realpath_cache_ttl"
  const COOKIE_LIFETIME := "session.cookie_lifetime"
  const COOKIE_SAMESITE := "session.cookie_samesite"
  const GC_MAXLIFETIME := "session.gc_maxlifetime"
  const REVALIDATE_FREQ := "opcache.revalidate_freq"

  const CORE := {MEMORY_LIMIT, MAX_EXECUTION_TIME, MAX_INPUT_TIME, MAX_INPUT_VARS, POST_MAX_SIZE, UPLOAD_MAX_FILESIZE}

  const FLAGS := {
    "display_errors", "log_errors", "session.cookie_secure", "session.cookie_httponly", "opcache.enable",
    "opcache.validate_timestamps"}

  const SAFE := FLAGS + {TIMEZONE, ERROR_REPORTING, COOKIE_SAMESITE, CACHE_SIZE} + {
    MAX_FILE_UPLOADS, CACHE_TTL, COOKIE_LIFETIME, GC_MAXLIFETIME, REVALIDATE_FREQ}

  const SIZES := {MEMORY_LIMIT, POST_MAX_SIZE, UPLOAD_MAX_FILESIZE, CACHE_SIZE}

  function Bounds(key: string): Option<(int, int)> {
    if key == MAX_EXECUTION_TIME || key == MAX_INPUT_TIME then Some((1, 3600))
    else if key == MAX_INPUT_VARS then Some((100, 50000))
    else if key == MAX_FILE_UPLOADS then Some((1, 100))
    else if key == CACHE_TTL then Some((0, 86400))
    else if key == COOKIE_LIFETIME then Some((0, 31536000))
    else if key == GC_MAXLIFETIME then Some((60, 31536000))
    else if key == REVALIDATE_FREQ then Some((0, 3600))
    else None
  }

  predicate Refused(c: char) {
    c == '\n' || c == '\r' || c == '\"' || c == '\'' || c == '`' || c == '\\'
  }

  // validatePHPValue, given the names the time zone database has.
  predicate ValidValue(zones: set<string>, key: string, v: string) {
    && 1 <= |v| <= 128
    && (key in FLAGS ==> v == "on" || v == "off" || v == "1" || v == "0")
    && (key == TIMEZONE ==> v in zones)
    && (key == COOKIE_SAMESITE ==> v == "Lax" || v == "Strict" || v == "None")
    && (key == ERROR_REPORTING ==> v == "all" || v == "production" || v == "none")
    && (key in SIZES ==> SizeBytes(v).Some? && 1024 <= SizeBytes(v).value <= 2 * GIB)
    && (Bounds(key).Some? ==> Atoi(v).Some? && Bounds(key).value.0 <= Atoi(v).value <= Bounds(key).value.1)
    && forall i :: 0 <= i < |v| ==> !Refused(v[i])
  }

  // No time zone has a semicolon in its name.
  ghost predicate WellNamed(zones: set<string>) {
    forall z :: z in zones ==> ';' !in z
  }

  lemma CoreIsNotSafe()
    ensures CORE !! SAFE
  {
    assert MAX_FILE_UPLOADS[4] == 'f' && MAX_EXECUTION_TIME[4] == 'e' && MAX_INPUT_TIME[4] == 'i' && MAX_INPUT_VARS[4] == 'i';
  }

  lemma FlagsAreNames(k: string)
    requires k in FLAGS
    ensures KeyName(k)
  {
  }

  lemma NumberKeysAreNames(k: string)
    requires k in {MAX_FILE_UPLOADS, CACHE_TTL, COOKIE_LIFETIME, GC_MAXLIFETIME, REVALIDATE_FREQ}
    ensures KeyName(k)
  {
  }

  lemma OtherKeysAreNames(k: string)
    requires k in {TIMEZONE, ERROR_REPORTING, COOKIE_SAMESITE, CACHE_SIZE}
    ensures KeyName(k)
  {
  }

  lemma SafeKeysAreNames(k: string)
    requires k in SAFE
    ensures KeyName(k)
  {
    if k in FLAGS {
      FlagsAreNames(k);
    } else if k in {TIMEZONE, ERROR_REPORTING, COOKIE_SAMESITE, CACHE_SIZE} {
      OtherKeysAreNames(k);
    } else {
      NumberKeysAreNames(k);
    }
  }

  lemma PlainNumber(v: string)
    requires Atoi(v).Some?
    ensures ';' !in v && '\n' !in v
  {
    forall i | 0 <= i < |v|
      ensures v[i] != ';' && v[i] != '\n'
    {
      assert Digit(v[i]) || v[i] == '+' || v[i] == '-';
    }
  }

  lemma PlainSize(v: string)
    requires IsSize(v)
    ensures ';' !in v && '\n' !in v
  {
    forall i | 0 <= i < |v|
      ensures v[i] != ';' && v[i] != '\n'
    {
      assert i < |v| - 1 ==> Digit(v[i]);
    }
  }

  lemma FixedValues(v: string)
    requires v in {"on", "off", "1", "0", "Lax", "Strict", "None", "all", "production", "none"}
    ensures ';' !in v && '\n' !in v
  {
  }

  // The value of a directive line never holds a character that would end it.
  lemma SafeValuesStayOnTheirLine(zones: set<string>, k: string, v: string)
    requires WellNamed(zones) && k in SAFE && ValidValue(zones, k, v)
    ensures ';' !in v && '\n' !in v
  {
    if k in FLAGS || k == COOKIE_SAMESITE || k == ERROR_REPORTING {
      FixedValues(v);
    } else if k == TIMEZONE {
      assert v in zones;
      assert forall i :: 0 <= i < |v| ==> !Refused(v[i]) && v[i] != '\n';
    } else if k == CACHE_SIZE {
      PlainSize(v);
    } else {
      PlainNumber(v);
    }
  }

  /** A size that fits an int64 is accepted exactly between one KiB and two GiB, in at most 128
      characters; no other text is accepted as a size. */
  lemma AcceptedSizesExactly(zones: set<string>, k: string, v: string)
    requires k in SIZES && (IsSize(v) ==> Size(v) <= MAX_INT64)
    ensures ValidValue(zones, k, v) <==> IsSize(v) && |v| <= 128 && 1024 <= Size(v) <= 2 * 1024 * 1024 * 1024
  {
    if IsSize(v) {
      SizeIsExact(v);
      SizeHoldsNoRefused(v);
      SizesAreSizesOnly(k);
    }
  }

  lemma SizeHoldsNoRefused(v: string)
    requires IsSize(v)
    ensures forall i :: 0 <= i < |v| ==> !Refused(v[i])
  {
    assert forall i :: 0 <= i < |v| - 1 ==> Digit(v[i]);
  }

  lemma SizesAreSizesOnly(k: string)
    requires k in SIZES
    ensures k !in FLAGS && k != TIMEZONE && k != COOKIE_SAMESITE && k != ERROR_REPORTING && Bounds(k).None?
  {
  }

  /******* The stored row *******/

  datatype Row = Row(memoryLimit: string, maxExecutionTime: string, maxInputTime: string, maxInputVars: string,
                     postMaxSize: string, uploadMaxFilesize: string, additional: string)

  function CoreValues(row: Row): map<string, string> {
    map[MEMORY_LIMIT := row.memoryLimit, MAX_EXECUTION_TIME := row.maxExecutionTime, MAX_INPUT_TIME := row.maxInputTime,
        MAX_INPUT_VARS := row.maxInputVars, POST_MAX_SIZE := row.postMaxSize, UPLOAD_MAX_FILESIZE := row.uploadMaxFilesize]
  }

  // What a reader of the row is told.
  function Values(row: Row): map<string, string> {
    CoreValues(row) + Additional(row.additional, SAFE)
  }

  method BuildPhpSettings(row: Row) returns (values: map<string, string>, unsupported: seq<string>)
    ensures values == Values(row)
    ensures Ascending(unsupported) && Elements(unsupported) == Unsupported(row.additional, SAFE)
  {
    var additional;
    additional, unsupported := ParseAdditional(row.additional, SAFE);
    AdditionalIsTidy(row.additional, SAFE);
    values := CoreValues(row);
    var rest := additional.Keys;
    while rest != {}
      invariant rest <= additional.Keys
      invariant values == CoreValues(row) + Part(additional, additional.Keys - rest)
      decreases rest
    {
      var k :| k in rest;
      if k in SAFE {
        PartGrows(CoreValues(row), additional, additional.Keys - rest, k);
        values := values[k := additional[k]];
      }
      assert additional.Keys - (rest - {k}) == additional.Keys - rest + {k};
      rest := rest - {k};
    }
    PartIsAll(additional, additional.Keys - rest);
  }

  // The entries of a map whose keys are in a set.
  function Part(m: map<string, string>, keys: set<string>): map<string, string> {
    map k | k in m && k in keys :: m[k]
  }

  lemma PartGrows(base: map<string, string>, m: map<string, string>, keys: set<string>, k: string)
    requires k in m
    ensures (base + Part(m, keys))[k := m[k]] == base + Part(m, keys + {k})
  {
  }

  lemma PartIsAll(m: map<string, string>, keys: set<string>)
    requires m.Keys <= keys
    ensures Part(m, keys) == m
  {
  }

  // The directives the text will hold.
  function AdditionalAfter(row: Row, changes: map<string, string>): map<string, string> {
    Additional(row.additional, SAFE) + Part(changes, SAFE)
  }

  datatype PhpUpdate = PhpUpdate(values: map<string, string>, additional: string)

  // The row as the UPDATE statement leaves it.
  function Stored(u: PhpUpdate): Row {
    Row(Get(u.values, MEMORY_LIMIT), Get(u.values, MAX_EXECUTION_TIME), Get(u.values, MAX_INPUT_TIME),
        Get(u.values, MAX_INPUT_VARS), Get(u.values, POST_MAX_SIZE), Get(u.values, UPLOAD_MAX_FILESIZE), u.additional)
  }

  /******* validatePHPUpdate *******/

  predicate ValidChange(zones: set<string>, k: string, v: string) {
    (k in CORE || k in SAFE) && ValidValue(zones, k, v)
  }

  // post_max_size covers upload_max_filesize, as sizeBytes reads them.
  predicate PostCovers(values: map<string, string>) {
    var post, upload := SizeBytes(Get(values, POST_MAX_SIZE)), SizeBytes(Get(values, UPLOAD_MAX_FILESIZE));
    post.Some? && upload.Some? && post.value >= upload.value
  }

  predicate Acceptable(zones: set<string>, row: Row, changes: map<string, string>) {
    && changes != map[]
    && (forall k :: k in changes ==> ValidChange(zones, k, changes[k]))
    && PostCovers(Values(row) + changes)
  }

  ghost predicate Updates(row: Row, changes: map<string, string>, u: PhpUpdate) {
    u.values == Values(row) + changes && Rewrites(row.additional, SAFE, AdditionalAfter(row, changes), u.additional)
  }

  lemma ChangeApplies(values: map<string, string>, additional: map<string, string>, changes: map<string, string>,
                      safe: set<string>, done: set<string>, k: string)
    requires k in changes
    ensures (values + Part(changes, done))[k := changes[k]] == values + Part(changes, done + {k})
    ensures (if k in safe then (additional + Part(changes, done * safe))[k := changes[k]] else additional + Part(changes, done * safe))
         == additional + Part(changes, (done + {k}) * safe)
  {
    PartGrows(values, changes, done, k);
    PartGrows(additional, changes, done * safe, k);
    assert (done + {k}) * safe == done * safe + if k in safe then {k} else {};
  }

  // The loop over the changes, in whatever order the map gives them.
  method ApplyChanges(valid: (string, string) -> bool, safe: set<string>, values: map<string, string>,
                      additional: map<string, string>, changes: map<string, string>)
    returns (r: Result<(map<string, string>, map<string, string>)>)
    ensures r.Ok? <==> forall k :: k in changes ==> valid(k, changes[k])
    ensures r.Ok? ==> r.value == (values + changes, additional + Part(changes, safe))
  {
    var v, a := values, additional;
    var rest, done: set<string> := changes.Keys, {};
    assert Part(changes, done) == map[] && Part(changes, done * safe) == map[];
    while rest != {}
      invariant rest !! done && rest + done == changes.Keys
      invariant forall k :: k in done ==> valid(k, changes[k])
      invariant v == values + Part(changes, done)
      invariant a == additional + Part(changes, done * safe)
      decreases rest
    {
      var k :| k in rest;
      if !valid(k, changes[k]) {
        return Err;
      }
      ChangeApplies(values, additional, changes, safe, done, k);
      v := v[k := changes[k]];
      if k in safe {
        a := a[k := changes[k]];
      }
      rest, done := rest - {k}, done + {k};
    }
    PartIsAll(changes, done);
    assert Part(changes, done * safe) == Part(changes, safe);
    return Ok((v, a));
  }

  method ValidatePhpUpdate(zones: set<string>, row: Row, changes: map<string, string>) returns (r: Result<PhpUpdate>)
    ensures r.Ok? <==> Acceptable(zones, row, changes)
    ensures r.Ok? ==> Updates(row, changes, r.value)
  {
    if changes == map[] {
      return Err;
    }
    var values, _ := BuildPhpSettings(row);
    var additional, _ := ParseAdditional(row.additional, SAFE);
    var applied := ApplyChanges((k, v) => ValidChange(zones, k, v), SAFE, values, additional, changes);
    if applied.Err? {
      return Err;
    }
    values, additional := applied.value.0, applied.value.1;
    if !PostCovers(values) {
      return Err;
    }
    var text := RewriteAdditional(row.additional, SAFE, additional);
    return Ok(PhpUpdate(values, text));
  }

  /******* What the stored row reads back as *******/

  lemma DirectivesAfterAreTidy(zones: set<string>, row: Row, changes: map<string, string>)
    requires WellNamed(zones) && forall k :: k in changes ==> ValidChange(zones, k, changes[k])
    ensures Tidy(AdditionalAfter(row, changes)) && AdditionalAfter(row, changes).Keys <= SAFE
    ensures Additional(row.additional, SAFE).Keys <= AdditionalAfter(row, changes).Keys
  {
    AdditionalIsTidy(row.additional, SAFE);
    forall k | k in changes && k in SAFE
      ensures KeyName(k) && ';' !in changes[k] && '\n' !in changes[k]
    {
      assert ValidChange(zones, k, changes[k]);
      SafeKeysAreNames(k);
      SafeValuesStayOnTheirLine(zones, k, changes[k]);
    }
  }

  lemma CoreIsStored(u: PhpUpdate)
    requires CORE <= u.values.Keys
    ensures CoreValues(Stored(u)) == Part(u.values, CORE)
  {
  }

  lemma CoreKeys(row: Row)
    ensures CoreValues(row).Keys == CORE
  {
  }

  // Two parts of the values, under disjoint keys, are all of them.
  lemma Recombined(values: map<string, string>, core: map<string, string>, additional: map<string, string>,
                   changes: map<string, string>, coreKeys: set<string>, safe: set<string>)
    requires values == core + additional + changes && coreKeys !! safe
    requires core.Keys == coreKeys && additional.Keys <= safe && changes.Keys <= coreKeys + safe
    ensures Part(values, coreKeys) + (additional + Part(changes, safe)) == values
  {
  }

  /** An accepted update, read back from the stored row: the old values overridden by exactly the
      changes. Every directive line, repeated or not, has the value that is read back, and the
      lines that set nothing supported are the same lines in the same order. */
  lemma AcceptedUpdateReadsBack(zones: set<string>, row: Row, changes: map<string, string>, u: PhpUpdate)
    requires WellNamed(zones) && Acceptable(zones, row, changes) && Updates(row, changes, u)
    ensures Values(Stored(u)) == Values(row) + changes
    ensures forall s :: s in Settings(Lines(u.additional), SAFE) ==> s.0 in u.values && s.1 == u.values[s.0]
    ensures Others(Lines(u.additional), SAFE) == Others(Lines(row.additional), SAFE)
    ensures Unsupported(u.additional, SAFE) == Unsupported(row.additional, SAFE)
  {
    var after := AdditionalAfter(row, changes);
    DirectivesAfterAreTidy(zones, row, changes);
    RewritingStores(row.additional, SAFE, after, u.additional);
    CoreIsStored(u);
    CoreIsNotSafe();
    CoreKeys(row);
    AdditionalIsTidy(row.additional, SAFE);
    ChangedKeys(zones, changes);
    Recombined(u.values, CoreValues(row), Additional(row.additional, SAFE), changes, CORE, SAFE);
  }

  lemma ChangedKeys(zones: set<string>, changes: map<string, string>)
    requires forall k :: k in changes ==> ValidChange(zones, k, changes[k])
    ensures changes.Keys <= CORE + SAFE
  {
  }

  /** Where neither size wraps, the accepted post size really is at least the upload size. */
  lemma AcceptedPostCoversUpload(zones: set<string>, row: Row, changes: map<string, string>)
    requires Acceptable(zones, row, changes)
    ensures var values := Values(row) + changes;
      var post, upload := Get(values, POST_MAX_SIZE), Get(values, UPLOAD_MAX_FILESIZE);
      && IsSize(post) && IsSize(upload)
      && (Size(post) <= MAX_INT64 && Size(upload) <= MAX_INT64 ==> Size(post) >= Size(upload))
  {
    var values := Values(row) + changes;
    SizeIsExact(Get(values, POST_MAX_SIZE));
    SizeIsExact(Get(values, UPLOAD_MAX_FILESIZE));
  }
}
