/**
 The plain archive inside a backup and the swaps that put a new tree in place
 (internal/gateway/operations.go): walking a site into entries, rebuilding the
 tree from the entries in a stage directory, and exchanging directories by rename.
 Names are kept as the component lists filepath.Clean leaves.
 */
module Archive {
  import opened Wrappers

  type Bytes = seq<int>
  type Path = seq<string>

  /******* A site on disk *******/

  // A directory's entries, in the order ReadDir lists them.
  datatype Entries = Nil | Cons(name: string, node: Node, rest: Entries)

  datatype Node = File(content: Bytes) | Dir(entries: Entries) | Symlink | Special

  // What a path of the tree holds.
  datatype Item = Folder | Content(bytes: Bytes)

  function Names(es: Entries): set<string> {
    match es case Nil => {} case Cons(name, _, rest) => {name} + Names(rest)
  }

  // Names in one directory differ; everything is a directory or a regular file.
  predicate Plain(es: Entries) {
    match es
    case Nil => true
    case Cons(name, node, rest) =>
      && name !in Names(rest) && Plain(rest)
      && (node.File? || (node.Dir? && Plain(node.entries)))
  }

  // The reference view of a tree: what is found by following a path from its root.
  function Lookup(es: Entries, p: Path): Option<Item>
    requires p != []
    decreases es
  {
    match es
    case Nil => None
    case Cons(name, node, rest) =>
      if name != p[0] then Lookup(rest, p)
      else match node
        case File(content) => if |p| == 1 then Some(Content(content)) else None
        case Dir(inner) => if |p| == 1 then Some(Folder) else Lookup(inner, p[1..])
        case _ => None
  }

  /******* The archive *******/

  datatype Kind = Regular | Directory | Other

  // A manifest is the one content that is parsed.
  datatype Payload = Raw(bytes: Bytes) | Manifest(version: int, domain: string)

  datatype Entry = Entry(absolute: bool, name: Path, kind: Kind, payload: Payload)

  const FILES := "files"
  const DATABASES := "databases"
  const MANIFEST := "manifest.json"
  const SUFFIX := ".sql.gz"

  datatype Components = FilesOnly | DatabasesOnly | Both

  predicate WantFiles(c: Components) {
    c.FilesOnly? || c.Both?
  }

  predicate WantDatabases(c: Components) {
    c.DatabasesOnly? || c.Both?
  }

  // addTree: every directory before what is in it; anything but directories and regular
  // files refuses the backup.
  function Walk(es: Entries, prefix: Path): Option<seq<Entry>> {
    match es
    case Nil => Some([])
    case Cons(name, node, rest) =>
      var path := prefix + [name];
      match Walk(rest, prefix)
      case None => None
      case Some(more) =>
        match node
        case File(content) => Some([Entry(false, path, Regular, Raw(content))] + more)
        case Dir(inner) =>
          (match Walk(inner, path)
           case None => None
           case Some(within) => Some([Entry(false, path, Directory, Raw([]))] + within + more))
        case _ => None
  }

  // The exported databases, by name.
  function Dumps(dbs: seq<string>, exports: map<string, Bytes>): Option<seq<Entry>> {
    if dbs == [] then Some([])
    else match Dumps(dbs[1..], exports)
      case None => None
      case Some(more) =>
        if dbs[0] !in exports then None
        else Some([Entry(false, [DATABASES, dbs[0] + SUFFIX], Regular, Raw(exports[dbs[0]]))] + more)
  }

  // writeBackupArchive; a database missing from `exports` is one whose export fails.
  function Archived(domain: string, c: Components, root: Entries, dbs: seq<string>, exports: map<string, Bytes>): Option<seq<Entry>> {
    var files := if WantFiles(c) then Walk(root, [FILES]) else Some([]);
    var dumps := if WantDatabases(c) then Dumps(dbs, exports) else Some([]);
    if files.None? || dumps.None? then None
    else Some([Entry(false, [MANIFEST], Regular, Manifest(1, domain))] + files.value + dumps.value)
  }

  // The archive on disk. The errors of the Close calls at its end are ignored, so what they had
  // to write may be missing.
  datatype Bundle = Bundle(entries: seq<Entry>, whole: bool)

  function Bundled(domain: string, c: Components, root: Entries, dbs: seq<string>, exports: map<string, Bytes>, closed: bool): Option<Bundle> {
    match Archived(domain, c, root, dbs, exports)
    case None => None
    case Some(entries) => Some(Bundle(entries, closed))
  }

  /******* Unpacking into the stage *******/

  type Tree = map<Path, Item>

  datatype Stage = Stage(files: Tree, dumps: map<string, Bytes>, manifest: bool)

  // os.MkdirAll
  function MkdirAll(m: Tree, p: Path): Option<Tree>
    decreases |p|
  {
    if p == [] then Some(m)
    else match MkdirAll(m, p[..|p| - 1])
      case None => None
      case Some(n) => if p !in n then Some(n[p := Folder]) else if n[p].Folder? then Some(n) else None
  }

  function RawBytes(p: Payload): Bytes {
    if p.Raw? then p.bytes else []
  }

  predicate HasPrefix(s: string, pre: string) {
    |pre| <= |s| && s[..|pre|] == pre
  }

  predicate HasSuffix(s: string, post: string) {
    |post| <= |s| && s[|s| - |post|..] == post
  }

  // One turn of the unpacking loop.
  function Unpacked(st: Stage, e: Entry, domain: string, c: Components): Option<Stage> {
    if e.absolute || (e.name != [] && HasPrefix(e.name[0], "..")) then None
    else if e.name == [MANIFEST] then
      (if e.payload != Manifest(1, domain) then None else Some(st.(manifest := true)))
    else if e.kind == Other then None
    else if |e.name| >= 2 && e.name[0] == FILES && WantFiles(c) then
      var rel := e.name[1..];
      if e.kind == Directory then
        (match MkdirAll(st.files, rel) case None => None case Some(n) => Some(st.(files := n)))
      else
        (match MkdirAll(st.files, rel[..|rel| - 1])
         case None => None
         case Some(n) => if rel in n then None else Some(st.(files := n[rel := Content(RawBytes(e.payload))])))
    else if |e.name| >= 2 && e.name[0] == DATABASES && WantDatabases(c) then
      var base := e.name[|e.name| - 1];
      if e.kind != Regular || !HasSuffix(base, SUFFIX) || base in st.dumps then None
      else Some(st.(dumps := st.dumps[base := RawBytes(e.payload)]))
    else Some(st)
  }

  function UnpackedAll(st: Stage, entries: seq<Entry>, domain: string, c: Components): Option<Stage>
    decreases |entries|
  {
    if entries == [] then Some(st)
    else match Unpacked(st, entries[0], domain, c)
      case None => None
      case Some(next) => UnpackedAll(next, entries[1..], domain, c)
  }

  /******* Restoring *******/

  // The live site: its document root (None while it is renamed away), its databases, and the
  // trees left beside the root under names of their own.
  datatype Site = Site(root: Option<Tree>, databases: map<string, Bytes>, aside: seq<Tree>)

  // The entry at which reading the archive or writing the stage fails, if any; which rename
  // fails, whether the undo rename works, whether removing the old tree fails, and what each
  // failing import leaves of its database.
  datatype Faults = Faults(staging: Option<nat>, away: bool, into: bool, undo: bool, kept: bool, imports: map<string, Bytes>)

  const NO_FAULTS := Faults(None, false, false, true, false, map[])

  // An archive whose end is missing cannot be read to its end.
  function Staged(b: Bundle, domain: string, c: Components, f: Faults): Option<Stage> {
    if !IsStaged(b, f) then None else UnpackedAll(EMPTY, b.entries, domain, c)
  }

  predicate IsStaged(b: Bundle, f: Faults) {
    b.whole && (f.staging.None? || f.staging.value > |b.entries|)
  }

  function Imported(databases: map<string, Bytes>, dumps: map<string, Bytes>, dbs: seq<string>, f: Faults): (map<string, Bytes>, bool)
    decreases |dbs|
  {
    if dbs == [] then (databases, true)
    else if dbs[0] + SUFFIX !in dumps then (databases, false)
    else if dbs[0] in f.imports then (databases[dbs[0] := f.imports[dbs[0]]], false)
    else Imported(databases[dbs[0] := dumps[dbs[0] + SUFFIX]], dumps, dbs[1..], f)
  }

  const EMPTY := Stage(map[], map[], false)

  // The tree that the renames leave beside the root, if any.
  function LeftAside(was: Tree, f: Faults): seq<Tree> {
    if f.away then [] else if f.into then (if f.undo then [] else [was]) else if f.kept then [was] else []
  }

  function Restored(s: Site, domain: string, b: Bundle, c: Components, dbs: seq<string>, f: Faults): (Site, bool) {
    match Staged(b, domain, c, f)
    case None => (s, false)
    case Some(st) =>
      if !st.manifest || (WantFiles(c) && (st.files == map[] || s.root.None? || f.away)) then (s, false)
      else if WantFiles(c) && f.into then
        (if f.undo then s else s.(root := None, aside := s.aside + LeftAside(s.root.value, f)), false)
      else
        var s1 := if WantFiles(c) then s.(root := Some(st.files), aside := s.aside + LeftAside(s.root.value, f)) else s;
        if WantDatabases(c) then
          var (databases, ok) := Imported(s1.databases, st.dumps, dbs, f);
          (s1.(databases := databases), ok)
        else (s1, true)
  }

  /******* Round trip *******/

  // The paths of a tree below `prefix`.
  function Paths(es: Entries, prefix: Path): Tree {
    match es
    case Nil => map[]
    case Cons(name, node, rest) =>
      var path := prefix + [name];
      var more := Paths(rest, prefix);
      match node
      case File(content) => more + map[path := Content(content)]
      case Dir(inner) => more + Paths(inner, path) + map[path := Folder]
      case _ => more
  }

  lemma {:induction false} PathsExtendPrefix(es: Entries, prefix: Path, q: Path)
    requires q in Paths(es, prefix)
    ensures |q| > |prefix| && prefix <= q && q[|prefix|] in Names(es)
  {
    match es
    case Nil =>
    case Cons(name, node, rest) =>
      var path := prefix + [name];
      if q in Paths(rest, prefix) {
        PathsExtendPrefix(rest, prefix, q);
      }
      if node.Dir? && q in Paths(node.entries, path) {
        PathsExtendPrefix(node.entries, path, q);
        assert q[..|path|] == path && path[|prefix|] == name;
        assert q[|prefix|] == path[|prefix|];
        assert q[..|prefix|] == path[..|prefix|] == prefix;
      }
  }

  /** The path map of a tree is exactly what following paths finds. */
  lemma {:induction false} PathsAreLookups(es: Entries, prefix: Path, q: Path)
    requires Plain(es) && q != []
    ensures prefix + q in Paths(es, prefix) <==> Lookup(es, q).Some?
    ensures Lookup(es, q).Some? ==> Paths(es, prefix)[prefix + q] == Lookup(es, q).value
    decreases es
  {
    match es
    case Nil =>
    case Cons(name, node, rest) =>
      var path := prefix + [name];
      PathsAreLookups(rest, prefix, q);
      if prefix + q in Paths(rest, prefix) {
        PathsExtendPrefix(rest, prefix, prefix + q);
      }
      if node.Dir? {
        if prefix + q in Paths(node.entries, path) {
          PathsExtendPrefix(node.entries, path, prefix + q);
          assert (prefix + q)[..|path|] == path && path[|prefix|] == name;
        }
        if q[0] == name && |q| > 1 {
          PathsAreLookups(node.entries, path, q[1..]);
          assert path + q[1..] == prefix + q;
        }
      }
      assert q[0] == name && |q| == 1 ==> prefix + q == path;
      assert prefix + q == path ==> q == (prefix + q)[|prefix|..] == path[|prefix|..] == [name];
  }

  ghost predicate DirsExist(m: Tree, p: Path) {
    forall k :: 1 <= k <= |p| ==> p[..k] in m && m[p[..k]] == Folder
  }

  // Nothing of the stage is in the way of the names of `es` below p.
  ghost predicate NoClash(m: Tree, p: Path, es: Entries) {
    forall q :: q in m && |q| > |p| && p <= q ==> q[|p|] !in Names(es)
  }

  lemma {:induction false} MkdirAllFindsDirs(m: Tree, p: Path)
    requires DirsExist(m, p)
    ensures MkdirAll(m, p) == Some(m)
    decreases |p|
  {
    if p != [] {
      var parent := p[..|p| - 1];
      forall k | 1 <= k <= |parent|
        ensures parent[..k] in m && m[parent[..k]] == Folder
      {
        assert parent[..k] == p[..k];
      }
      MkdirAllFindsDirs(m, parent);
      assert p[..|p|] == p;
    }
  }

  lemma {:induction false} UnpackedSplits(st: Stage, a: seq<Entry>, b: seq<Entry>, domain: string, c: Components)
    ensures UnpackedAll(st, a + b, domain, c) ==
      match UnpackedAll(st, a, domain, c) case None => None case Some(next) => UnpackedAll(next, b, domain, c)
    decreases |a|
  {
    if a == [] {
      assert a + b == b;
    } else {
      assert (a + b)[1..] == a[1..] + b;
      if Unpacked(st, a[0], domain, c).Some? {
        UnpackedSplits(Unpacked(st, a[0], domain, c).value, a[1..], b, domain, c);
      }
    }
  }

  lemma OneUnpacked(st: Stage, e: Entry, domain: string, c: Components)
    ensures UnpackedAll(st, [e], domain, c) == Unpacked(st, e, domain, c)
  {
    assert [e][1..] == [];
  }

  // One file or directory entry below an existing directory.
  lemma EntryUnpacks(st: Stage, p: Path, name: string, e: Entry, domain: string, c: Components)
    requires WantFiles(c) && DirsExist(st.files, p) && p + [name] !in st.files
    requires e.name == [FILES] + p + [name] && !e.absolute && e.kind != Other && (e.kind == Directory || e.payload.Raw?)
    ensures Unpacked(st, e, domain, c) ==
      Some(st.(files := st.files[p + [name] := if e.kind == Directory then Folder else Content(e.payload.bytes)]))
  {
    var rel := p + [name];
    assert e.name[1..] == rel && e.name[0] == FILES && rel[..|rel| - 1] == p;
    assert FILES[..2][0] == 'f';
    MkdirAllFindsDirs(st.files, p);
  }

  lemma NameIsNotBelow(m: Tree, p: Path, name: string, es: Entries)
    requires NoClash(m, p, es) && name in Names(es)
    ensures p + [name] !in m
  {
    assert (p + [name])[|p|] == name;
  }

  lemma ReadyInside(m: Tree, p: Path, name: string, es: Entries, inner: Entries)
    requires DirsExist(m, p) && NoClash(m, p, es) && name in Names(es)
    ensures
      var path := p + [name];
      var n := m[path := Folder];
      DirsExist(n, path) && NoClash(n, path, inner)
  {
    var path := p + [name];
    var n := m[path := Folder];
    forall k | 1 <= k <= |path|
      ensures path[..k] in n && n[path[..k]] == Folder
    {
      if k <= |p| {
        assert path[..k] == p[..k];
      } else {
        assert path[..k] == path;
      }
    }
    forall q | path <= q
      ensures p <= q && q[|p|] == name
    {
      assert q[|p|] == path[|p|];
    }
  }

  lemma ReadyAfter(m: Tree, p: Path, name: string, item: Item, rest: Entries, added: Tree)
    requires DirsExist(m, p) && name !in Names(rest)
    requires NoClash(m, p, rest)
    requires forall q :: q in added ==> |q| > |p| && p <= q && q[|p|] == name
    ensures
      var n := m[p + [name] := item] + added;
      DirsExist(n, p) && NoClash(n, p, rest)
  {
    var n := m[p + [name] := item] + added;
    forall k | 1 <= k <= |p|
      ensures p[..k] in n && n[p[..k]] == Folder
    {
      assert |p[..k]| <= |p|;
    }
  }

  lemma PathsBelow(inner: Entries, p: Path, name: string)
    ensures forall q :: q in Paths(inner, p + [name]) ==> |q| > |p| && p <= q && q[|p|] == name
  {
    var path := p + [name];
    forall q | q in Paths(inner, path)
      ensures |q| > |p| && p <= q && q[|p|] == name
    {
      PathsExtendPrefix(inner, path, q);
      assert q[..|path|] == path && path[|p|] == name;
      assert q[..|p|] == path[..|p|] == p;
    }
  }

  lemma SameMap(m: Tree, path: Path, item: Item, added: Tree, more: Tree)
    requires path !in added && path !in more && forall q :: q in more ==> q !in added
    ensures m[path := item] + added + more == m + (more + added + map[path := item])
  {
  }

  // What unpacking an entry and then two more lists gives.
  lemma ThreeUnpacked(st: Stage, e: Entry, a: seq<Entry>, b: seq<Entry>, st1: Stage, st2: Stage, st3: Stage, domain: string, c: Components)
    requires Unpacked(st, e, domain, c) == Some(st1)
    requires UnpackedAll(st1, a, domain, c) == Some(st2) && UnpackedAll(st2, b, domain, c) == Some(st3)
    ensures UnpackedAll(st, [e] + a + b, domain, c) == Some(st3)
  {
    OneUnpacked(st, e, domain, c);
    UnpackedSplits(st, [e], a, domain, c);
    UnpackedSplits(st, [e] + a, b, domain, c);
  }

  // Unpacking `entries` adds exactly `added` to the staged files.
  ghost predicate Adds(st: Stage, entries: seq<Entry>, added: Tree, domain: string, c: Components) {
    UnpackedAll(st, entries, domain, c) == Some(st.(files := st.files + added))
  }

  lemma AddsThree(st: Stage, e: Entry, path: Path, item: Item, a: seq<Entry>, inner: Tree, b: seq<Entry>, more: Tree, domain: string, c: Components)
    requires Unpacked(st, e, domain, c) == Some(st.(files := st.files[path := item]))
    requires Adds(st.(files := st.files[path := item]), a, inner, domain, c)
    requires Adds(st.(files := st.files[path := item] + inner), b, more, domain, c)
    requires path !in inner && path !in more && forall q :: q in more ==> q !in inner
    ensures Adds(st, [e] + a + b, more + inner + map[path := item], domain, c)
  {
    var st1 := st.(files := st.files[path := item]);
    var st2 := st.(files := st.files[path := item] + inner);
    var st3 := st.(files := st.files[path := item] + inner + more);
    SameMap(st.files, path, item, inner, more);
    ThreeUnpacked(st, e, a, b, st1, st2, st3, domain, c);
  }

  lemma NothingAdds(st: Stage, domain: string, c: Components)
    ensures Adds(st, [], map[], domain, c)
  {
    assert st.files + map[] == st.files;
  }

  // Unpacking what Walk wrote rebuilds the paths of the tree.
  lemma {:induction false} WalkRebuilds(es: Entries, p: Path, st: Stage, domain: string, c: Components)
    requires WantFiles(c) && Plain(es) && DirsExist(st.files, p) && NoClash(st.files, p, es)
    ensures Walk(es, [FILES] + p).Some?
    ensures Adds(st, Walk(es, [FILES] + p).value, Paths(es, p), domain, c)
    decreases es
  {
    match es
    case Nil => NothingAdds(st, domain, c);
    case Cons(name, node, rest) =>
      var path := p + [name];
      var full := [FILES] + path;
      assert [FILES] + p + [name] == full;
      NameIsNotBelow(st.files, p, name, es);
      KeysApart(rest, p, name, path);
      var item, inner := if node.Dir? then Folder else Content(node.content), if node.Dir? then node.entries else Nil;
      var e := Entry(false, full, if node.Dir? then Directory else Regular, if node.Dir? then Raw([]) else Raw(node.content));
      EntryUnpacks(st, p, name, e, domain, c);
      var st1 := st.(files := st.files[path := item]);
      if node.Dir? {
        ReadyInside(st.files, p, name, es, inner);
        WalkRebuilds(inner, path, st1, domain, c);
      } else {
        NothingAdds(st1, domain, c);
      }
      PathsBelow(inner, p, name);
      NotItsOwnPath(inner, path);
      ReadyAfter(st.files, p, name, item, rest, Paths(inner, path));
      var st2 := st.(files := st.files[path := item] + Paths(inner, path));
      WalkRebuilds(rest, p, st2, domain, c);
      AddsThree(st, e, path, item, Walk(inner, full).value, Paths(inner, path), Walk(rest, [FILES] + p).value, Paths(rest, p), domain, c);
      WalkUnfolds(name, node, rest, p, e, inner, item);
  }

  lemma WalkUnfolds(name: string, node: Node, rest: Entries, p: Path, e: Entry, inner: Entries, item: Item)
    requires node.File? || node.Dir?
    requires inner == (if node.Dir? then node.entries else Nil) && item == (if node.Dir? then Folder else Content(node.content))
    requires e == Entry(false, [FILES] + (p + [name]), if node.Dir? then Directory else Regular,
                        if node.Dir? then Raw([]) else Raw(node.content))
    requires Walk(inner, [FILES] + (p + [name])).Some? && Walk(rest, [FILES] + p).Some?
    ensures Walk(Cons(name, node, rest), [FILES] + p) ==
      Some([e] + Walk(inner, [FILES] + (p + [name])).value + Walk(rest, [FILES] + p).value)
    ensures Paths(Cons(name, node, rest), p) == Paths(rest, p) + Paths(inner, p + [name]) + map[p + [name] := item]
  {
    assert [FILES] + p + [name] == [FILES] + (p + [name]);
    if node.File? {
      assert [e] + [] == [e];
      assert Paths(rest, p) + map[] == Paths(rest, p);
    }
  }

  lemma NotItsOwnPath(inner: Entries, path: Path)
    ensures path !in Paths(inner, path)
  {
    if path in Paths(inner, path) {
      PathsExtendPrefix(inner, path, path);
    }
  }

  lemma KeysApart(rest: Entries, p: Path, name: string, path: Path)
    requires name !in Names(rest) && path == p + [name]
    ensures forall q :: q in Paths(rest, p) ==> |q| > |p| && q[..|p|] == p && q[|p|] != name
  {
    forall q | q in Paths(rest, p)
      ensures |q| > |p| && q[..|p|] == p && q[|p|] != name
    {
      PathsExtendPrefix(rest, p, q);
    }
  }

  // What addTree writes, seen by a restore that does not want files.
  lemma {:induction false} WalkedNames(es: Entries, prefix: Path)
    requires Walk(es, prefix).Some? && prefix != []
    ensures forall e :: e in Walk(es, prefix).value ==>
      !e.absolute && |e.name| >= 2 && e.name[0] == prefix[0] && e.kind != Other
    decreases es
  {
    match es
    case Nil =>
    case Cons(name, node, rest) =>
      WalkedNames(rest, prefix);
      if node.Dir? {
        WalkedNames(node.entries, prefix + [name]);
      }
  }

  lemma {:induction false} UnwantedIsSkipped(st: Stage, entries: seq<Entry>, domain: string, c: Components)
    requires forall e :: e in entries ==> Unpacked(st, e, domain, c) == Some(st)
    ensures UnpackedAll(st, entries, domain, c) == Some(st)
    decreases |entries|
  {
    if entries != [] {
      assert entries[0] in entries;
      UnwantedIsSkipped(st, entries[1..], domain, c);
    }
  }

  lemma FilesAreSkipped(st: Stage, es: Entries, domain: string, c: Components)
    requires !WantFiles(c) && Walk(es, [FILES]).Some?
    ensures UnpackedAll(st, Walk(es, [FILES]).value, domain, c) == Some(st)
  {
    WalkedNames(es, [FILES]);
    assert FILES[..2][0] == 'f' && FILES[0] != DATABASES[0];
    UnwantedIsSkipped(st, Walk(es, [FILES]).value, domain, c);
  }

  lemma {:induction false} DumpsAreSkipped(st: Stage, dbs: seq<string>, exports: map<string, Bytes>, domain: string, c: Components)
    requires !WantDatabases(c) && Dumps(dbs, exports).Some?
    ensures UnpackedAll(st, Dumps(dbs, exports).value, domain, c) == Some(st)
    decreases |dbs|
  {
    if dbs != [] {
      DumpsAreSkipped(st, dbs[1..], exports, domain, c);
      var e := Entry(false, [DATABASES, dbs[0] + SUFFIX], Regular, Raw(exports[dbs[0]]));
      assert DATABASES[..2][0] == 'd' && DATABASES[0] != FILES[0];
      OneUnpacked(st, e, domain, c);
      UnpackedSplits(st, [e], Dumps(dbs[1..], exports).value, domain, c);
    }
  }

  ghost predicate Distinct(dbs: seq<string>) {
    forall i, j :: 0 <= i < j < |dbs| ==> dbs[i] != dbs[j]
  }

  function DumpFiles(dbs: seq<string>, exports: map<string, Bytes>): map<string, Bytes>
    requires forall d :: d in dbs ==> d in exports
  {
    if dbs == [] then map[] else map[dbs[0] + SUFFIX := exports[dbs[0]]] + DumpFiles(dbs[1..], exports)
  }

  lemma SuffixIsInjective(a: string, b: string)
    ensures a + SUFFIX == b + SUFFIX ==> a == b
    ensures HasSuffix(a + SUFFIX, SUFFIX)
  {
    assert (a + SUFFIX)[..|a|] == a && (b + SUFFIX)[..|b|] == b;
    assert a + SUFFIX == b + SUFFIX ==> |a| == |b|;
  }

  lemma {:induction false} DumpFilesHold(dbs: seq<string>, exports: map<string, Bytes>)
    requires Distinct(dbs) && forall d :: d in dbs ==> d in exports
    ensures forall d :: d in dbs ==> d + SUFFIX in DumpFiles(dbs, exports) && DumpFiles(dbs, exports)[d + SUFFIX] == exports[d]
    ensures forall x: string :: x !in dbs ==> x + SUFFIX !in DumpFiles(dbs, exports)
    decreases |dbs|
  {
    if dbs != [] {
      DumpFilesHold(dbs[1..], exports);
      assert dbs[0] in dbs && dbs[0] !in dbs[1..];
      forall x: string
        ensures x + SUFFIX == dbs[0] + SUFFIX ==> x == dbs[0]
      {
        SuffixIsInjective(x, dbs[0]);
      }
    }
  }

  lemma OneDumpUnpacks(st: Stage, d: string, bytes: Bytes, domain: string, c: Components)
    requires WantDatabases(c) && d + SUFFIX !in st.dumps
    ensures UnpackedAll(st, [Entry(false, [DATABASES, d + SUFFIX], Regular, Raw(bytes))], domain, c) ==
      Some(st.(dumps := st.dumps[d + SUFFIX := bytes]))
  {
    var e := Entry(false, [DATABASES, d + SUFFIX], Regular, Raw(bytes));
    assert DATABASES[..2][0] == 'd' && DATABASES[0] != FILES[0];
    SuffixIsInjective(d, d);
    OneUnpacked(st, e, domain, c);
  }

  lemma {:induction false} DumpsRebuild(st: Stage, dbs: seq<string>, exports: map<string, Bytes>, domain: string, c: Components)
    requires WantDatabases(c) && Distinct(dbs) && forall d :: d in dbs ==> d in exports
    requires forall d :: d in dbs ==> d + SUFFIX !in st.dumps
    ensures Dumps(dbs, exports).Some?
    ensures UnpackedAll(st, Dumps(dbs, exports).value, domain, c) ==
      Some(st.(dumps := st.dumps + DumpFiles(dbs, exports)))
    decreases |dbs|
  {
    if dbs == [] {
      assert st.dumps + map[] == st.dumps;
    } else {
      var d := dbs[0];
      var st1 := st.(dumps := st.dumps[d + SUFFIX := exports[d]]);
      forall x | x in dbs[1..]
        ensures x + SUFFIX !in st1.dumps
      {
        SuffixIsInjective(x, d);
      }
      DumpsRebuild(st1, dbs[1..], exports, domain, c);
      OneDumpUnpacks(st, d, exports[d], domain, c);
      UnpackedSplits(st, [Entry(false, [DATABASES, d + SUFFIX], Regular, Raw(exports[d]))],
                     Dumps(dbs[1..], exports).value, domain, c);
      AddedFirst(st.dumps, d + SUFFIX, exports[d], DumpFiles(dbs[1..], exports));
    }
  }

  lemma AddedFirst(m: map<string, Bytes>, k: string, v: Bytes, more: map<string, Bytes>)
    ensures m[k := v] + more == m + (map[k := v] + more)
  {
  }

  // The databases after importing every dump.
  function Reloaded(databases: map<string, Bytes>, dbs: seq<string>, exports: map<string, Bytes>): map<string, Bytes>
    requires forall d :: d in dbs ==> d in exports
  {
    map d | d in databases.Keys + (set x | x in dbs) :: if d in dbs then exports[d] else databases[d]
  }

  // How many imports work before the first one that fails.
  function Working(dbs: seq<string>, imports: map<string, Bytes>): (n: nat)
    ensures n <= |dbs| && (forall k :: 0 <= k < n ==> dbs[k] !in imports) && (n < |dbs| ==> dbs[n] in imports)
    decreases |dbs|
  {
    if dbs == [] || dbs[0] in imports then 0 else 1 + Working(dbs[1..], imports)
  }

  // The databases when the imports stop at the first one that fails.
  function ReloadedUpTo(databases: map<string, Bytes>, dbs: seq<string>, exports: map<string, Bytes>, imports: map<string, Bytes>): map<string, Bytes>
    requires forall d :: d in dbs ==> d in exports
  {
    var n := Working(dbs, imports);
    var before := Reloaded(databases, dbs[..n], exports);
    if n == |dbs| then before else before[dbs[n] := imports[dbs[n]]]
  }

  lemma {:induction false} ImportsReload(databases: map<string, Bytes>, dumps: map<string, Bytes>, dbs: seq<string>, exports: map<string, Bytes>, f: Faults)
    requires Distinct(dbs)
    requires forall d :: d in dbs ==> d in exports && d + SUFFIX in dumps && dumps[d + SUFFIX] == exports[d]
    ensures Imported(databases, dumps, dbs, f) ==
      (ReloadedUpTo(databases, dbs, exports, f.imports), Working(dbs, f.imports) == |dbs|)
    decreases |dbs|
  {
    var n := Working(dbs, f.imports);
    if dbs == [] || dbs[0] in f.imports {
      assert Reloaded(databases, dbs[..0], exports) == databases;
    } else {
      assert dbs[0] in dbs && dbs[0] !in dbs[1..];
      ImportsReload(databases[dbs[0] := exports[dbs[0]]], dumps, dbs[1..], exports, f);
      OneReloaded(databases, dbs, exports, n);
    }
  }

  lemma OneReloaded(databases: map<string, Bytes>, dbs: seq<string>, exports: map<string, Bytes>, n: nat)
    requires Distinct(dbs) && 1 <= n <= |dbs| && forall d :: d in dbs ==> d in exports
    ensures Reloaded(databases[dbs[0] := exports[dbs[0]]], dbs[1..][..n - 1], exports) == Reloaded(databases, dbs[..n], exports)
  {
    var x, y := dbs[1..][..n - 1], dbs[..n];
    assert dbs[0] in dbs && y == [dbs[0]] + x;
    assert forall d :: d in y <==> d == dbs[0] || d in x;
  }

  // The archive of a plain tree, unpacked.
  lemma ArchiveUnpacks(domain: string, backup: Components, root: Entries, dbs: seq<string>, exports: map<string, Bytes>, c: Components)
    requires Plain(root) && Distinct(dbs) && forall d :: d in dbs ==> d in exports
    requires (WantFiles(c) ==> WantFiles(backup)) && (WantDatabases(c) ==> WantDatabases(backup))
    ensures Archived(domain, backup, root, dbs, exports).Some?
    ensures UnpackedAll(EMPTY, Archived(domain, backup, root, dbs, exports).value, domain, c) ==
      Some(Stage(if WantFiles(c) then Paths(root, []) else map[],
                 if WantDatabases(c) then DumpFiles(dbs, exports) else map[], true))
  {
    var m := Entry(false, [MANIFEST], Regular, Manifest(1, domain));
    WalkSucceeds(root, [FILES]);
    DumpsSucceed(dbs, exports);
    var files := if WantFiles(backup) then Walk(root, [FILES]).value else [];
    var dumps := if WantDatabases(backup) then Dumps(dbs, exports).value else [];
    ManifestUnpacks(domain, c);
    FilesUnpack(domain, backup, root, c);
    var st := EMPTY.(manifest := true, files := if WantFiles(c) then Paths(root, []) else map[]);
    DumpsUnpack(st, domain, backup, dbs, exports, c);
    UnpackedSplits(EMPTY, [m], files, domain, c);
    UnpackedSplits(EMPTY, [m] + files, dumps, domain, c);
  }

  lemma ManifestUnpacks(domain: string, c: Components)
    ensures UnpackedAll(EMPTY, [Entry(false, [MANIFEST], Regular, Manifest(1, domain))], domain, c) ==
      Some(EMPTY.(manifest := true))
  {
    assert MANIFEST[..2][0] == 'm';
    OneUnpacked(EMPTY, Entry(false, [MANIFEST], Regular, Manifest(1, domain)), domain, c);
  }

  lemma FilesUnpack(domain: string, backup: Components, root: Entries, c: Components)
    requires Plain(root) && (WantFiles(c) ==> WantFiles(backup)) && Walk(root, [FILES]).Some?
    ensures
      var st := EMPTY.(manifest := true);
      UnpackedAll(st, if WantFiles(backup) then Walk(root, [FILES]).value else [], domain, c) ==
        Some(st.(files := if WantFiles(c) then Paths(root, []) else map[]))
  {
    var st := EMPTY.(manifest := true);
    if WantFiles(c) {
      assert [FILES] + [] == [FILES];
      WalkRebuilds(root, [], st, domain, c);
      assert map[] + Paths(root, []) == Paths(root, []);
    } else if WantFiles(backup) {
      FilesAreSkipped(st, root, domain, c);
    }
  }

  lemma DumpsUnpack(st: Stage, domain: string, backup: Components, dbs: seq<string>, exports: map<string, Bytes>, c: Components)
    requires Distinct(dbs) && forall d :: d in dbs ==> d in exports
    requires (WantDatabases(c) ==> WantDatabases(backup)) && Dumps(dbs, exports).Some? && st.dumps == map[]
    ensures UnpackedAll(st, if WantDatabases(backup) then Dumps(dbs, exports).value else [], domain, c) ==
      Some(st.(dumps := if WantDatabases(c) then DumpFiles(dbs, exports) else map[]))
  {
    if WantDatabases(c) {
      DumpsRebuild(st, dbs, exports, domain, c);
      assert map[] + DumpFiles(dbs, exports) == DumpFiles(dbs, exports);
    } else if WantDatabases(backup) {
      DumpsAreSkipped(st, dbs, exports, domain, c);
    }
  }

  lemma {:induction false} WalkSucceeds(es: Entries, prefix: Path)
    requires Plain(es)
    ensures Walk(es, prefix).Some?
    decreases es
  {
    match es
    case Nil =>
    case Cons(name, node, rest) =>
      WalkSucceeds(rest, prefix);
      if node.Dir? {
        WalkSucceeds(node.entries, prefix + [name]);
      }
  }

  lemma {:induction false} DumpsSucceed(dbs: seq<string>, exports: map<string, Bytes>)
    requires forall d :: d in dbs ==> d in exports
    ensures Dumps(dbs, exports).Some?
    decreases |dbs|
  {
    if dbs != [] {
      DumpsSucceed(dbs[1..], exports);
    }
  }

  // The tree holds, path by path, what following the paths of `root` finds.
  ghost predicate Holds(tree: Tree, root: Entries) {
    && [] !in tree
    && (forall q: Path :: q != [] ==> (q in tree <==> Lookup(root, q).Some?))
    && (forall q: Path :: q != [] && q in tree ==> tree[q] == Lookup(root, q).value)
  }

  // The renames happen.
  predicate Moves(s: Site, b: Bundle, c: Components, files: Tree, f: Faults) {
    IsStaged(b, f) && WantFiles(c) && files != map[] && s.root.Some? && !f.away
  }

  // The imports start.
  predicate Imports(s: Site, b: Bundle, c: Components, files: Tree, f: Faults) {
    IsStaged(b, f) && WantDatabases(c) && (WantFiles(c) ==> Moves(s, b, c, files, f) && !f.into)
  }

  // The same for any archive that unpacks.
  lemma RootAfterRestore(s: Site, domain: string, b: Bundle, c: Components, dbs: seq<string>, f: Faults)
    requires UnpackedAll(EMPTY, b.entries, domain, c).Some? && UnpackedAll(EMPTY, b.entries, domain, c).value.manifest
    ensures
      var t, files := Restored(s, domain, b, c, dbs, f).0, UnpackedAll(EMPTY, b.entries, domain, c).value.files;
      var moving := Moves(s, b, c, files, f);
      if moving && !f.into then t.root == Some(files) && t.aside == s.aside + (if f.kept then [s.root.value] else [])
      else if moving && !f.undo then t.root == None && t.aside == s.aside + [s.root.value]
      else t.root == s.root && t.aside == s.aside
  {
  }

  lemma DatabasesAfterRestore(s: Site, domain: string, b: Bundle, c: Components, dbs: seq<string>, f: Faults)
    requires UnpackedAll(EMPTY, b.entries, domain, c).Some? && UnpackedAll(EMPTY, b.entries, domain, c).value.manifest
    ensures
      var (t, ok) := Restored(s, domain, b, c, dbs, f);
      var st := UnpackedAll(EMPTY, b.entries, domain, c).value;
      var (databases, all) := Imported(s.databases, st.dumps, dbs, f);
      && t.databases == (if Imports(s, b, c, st.files, f) then databases else s.databases)
      && (ok <==>
            && IsStaged(b, f) && (WantFiles(c) ==> Moves(s, b, c, st.files, f) && !f.into)
            && (WantDatabases(c) ==> all))
  {
  }

  /** Restoring a backup of a plain tree, whatever fails. The document root is the old one, or the
      archived tree path by path, or absent with the old one kept beside it, and which of them is
      decided by the faults; the databases before the first failing import are the exported ones,
      the failing one is what its import left, all others are as before; and the result says
      whether everything was done. Neither a backup of an empty tree nor one whose end was lost when
      it was closed is ever restored. */
  lemma RestoreIsAllOrNothing(
    s: Site, domain: string, backup: Components, root: Entries, dbs: seq<string>, exports: map<string, Bytes>, closed: bool,
    c: Components, f: Faults)
    requires Plain(root) && Distinct(dbs) && forall d :: d in dbs ==> d in exports
    requires (WantFiles(c) ==> WantFiles(backup)) && (WantDatabases(c) ==> WantDatabases(backup))
    ensures Bundled(domain, backup, root, dbs, exports, closed).Some?
    ensures
      var b := Bundled(domain, backup, root, dbs, exports, closed).value;
      var (t, ok) := Restored(s, domain, b, c, dbs, f);
      var staged := closed && (f.staging.None? || f.staging.value > |b.entries|);
      var moving := staged && WantFiles(c) && root != Nil && s.root.Some? && !f.away;
      var importing := staged && WantDatabases(c) && (WantFiles(c) ==> moving && !f.into);
      && (if moving && !f.into then
            t.root.Some? && Holds(t.root.value, root) && t.aside == s.aside + (if f.kept then [s.root.value] else [])
          else if moving && !f.undo then t.root == None && t.aside == s.aside + [s.root.value]
          else t.root == s.root && t.aside == s.aside)
      && t.databases == (if importing then ReloadedUpTo(s.databases, dbs, exports, f.imports) else s.databases)
      && (ok <==>
            && staged && (WantFiles(c) ==> moving && !f.into)
            && (WantDatabases(c) ==> forall d :: d in dbs ==> d !in f.imports))
  {
    ArchiveUnpacks(domain, backup, root, dbs, exports, c);
    TreeIsFaithful(root);
    AllWork(dbs, f.imports);
    var b := Bundled(domain, backup, root, dbs, exports, closed).value;
    RootAfterRestore(s, domain, b, c, dbs, f);
    DatabasesAfterRestore(s, domain, b, c, dbs, f);
    if WantDatabases(c) {
      DumpFilesHold(dbs, exports);
      ImportsReload(s.databases, DumpFiles(dbs, exports), dbs, exports, f);
    }
  }

  lemma AllWork(dbs: seq<string>, imports: map<string, Bytes>)
    ensures Working(dbs, imports) == |dbs| <==> forall d :: d in dbs ==> d !in imports
  {
  }

  /** With nothing failing, a restore succeeds exactly when the archive was closed whole and files
      are not wanted, or there is a root to replace and the archived tree is not empty; then every path, directories and empty
      directories included, holds what it held, and every database is the exported one. */
  lemma BackupRestoresTheSite(
    s: Site, domain: string, backup: Components, root: Entries, dbs: seq<string>, exports: map<string, Bytes>, closed: bool,
    c: Components)
    requires Plain(root) && Distinct(dbs) && forall d :: d in dbs ==> d in exports
    requires (WantFiles(c) ==> WantFiles(backup)) && (WantDatabases(c) ==> WantDatabases(backup))
    ensures Bundled(domain, backup, root, dbs, exports, closed).Some?
    ensures
      var b := Bundled(domain, backup, root, dbs, exports, closed).value;
      var (t, ok) := Restored(s, domain, b, c, dbs, NO_FAULTS);
      && (ok <==> closed && (WantFiles(c) ==> root != Nil && s.root.Some?))
      && (ok && WantFiles(c) ==> t.root.Some? && Holds(t.root.value, root))
      && (ok && !WantFiles(c) ==> t.root == s.root)
      && (ok && WantDatabases(c) ==> t.databases == Reloaded(s.databases, dbs, exports))
      && (ok && !WantDatabases(c) ==> t.databases == s.databases)
      && t.aside == s.aside
  {
    RestoreIsAllOrNothing(s, domain, backup, root, dbs, exports, closed, c, NO_FAULTS);
    AllWork(dbs, NO_FAULTS.imports);
    assert dbs[..|dbs|] == dbs;
  }

  lemma TreeIsFaithful(root: Entries)
    requires Plain(root)
    ensures
      var tree := Paths(root, []);
      && (tree == map[] <==> root == Nil)
      && Holds(tree, root)
  {
    var tree := Paths(root, []);
    forall q: Path | q != []
      ensures q in tree <==> Lookup(root, q).Some?
      ensures q in tree ==> tree[q] == Lookup(root, q).value
    {
      PathsAreLookups(root, [], q);
      assert [] + q == q;
    }
    if [] in tree {
      PathsExtendPrefix(root, [], []);
    }
    if root.Cons? {
      assert Lookup(root, [root.name]).Some?;
      assert [root.name] in tree;
    }
  }

  predicate OnlyDirsAndFiles(es: Entries) {
    match es
    case Nil => true
    case Cons(_, node, rest) =>
      OnlyDirsAndFiles(rest) && (node.File? || (node.Dir? && OnlyDirsAndFiles(node.entries)))
  }

  /** A symlink or special file anywhere in the tree refuses the backup, and nothing else does. */
  lemma {:induction false} WalkRefusesExactly(es: Entries, prefix: Path)
    ensures Walk(es, prefix).Some? <==> OnlyDirsAndFiles(es)
    decreases es
  {
    match es
    case Nil =>
    case Cons(name, node, rest) =>
      WalkRefusesExactly(rest, prefix);
      if node.Dir? {
        WalkRefusesExactly(node.entries, prefix + [name]);
      }
  }

  /******* The operations themselves *******/

  class Host {
    var root: Option<Tree>
    var databases: map<string, Bytes>
    // what sits beside the document root: renamed-away trees and the stage
    var aside: seq<Tree>
    var stage: Option<Tree>

    ghost function View(): Site
      reads this
    {
      Site(root, databases, aside)
    }

    constructor (s: Site)
      ensures View() == s && stage == None
    {
      root, databases, aside, stage := s.root, s.databases, s.aside, None;
    }

    method Unpack(b: Bundle, domain: string, c: Components, f: Faults) returns (r: Option<Stage>)
      ensures r == Staged(b, domain, c, f)
    {
      var files: Tree, dumps: map<string, Bytes>, manifest := map[], map[], false;
      var entries, i := b.entries, 0;
      assert entries[0..] == entries;
      while i < |entries|
        invariant 0 <= i <= |entries|
        invariant UnpackedAll(EMPTY, entries, domain, c) == UnpackedAll(Stage(files, dumps, manifest), entries[i..], domain, c)
        invariant f.staging.Some? ==> f.staging.value >= i
      {
        if f.staging == Some(i) {
          return None;
        }
        var e := entries[i];
        ghost var before := Stage(files, dumps, manifest);
        assert entries[i..][0] == e && entries[i..][1..] == entries[i + 1..];
        if e.absolute || (e.name != [] && HasPrefix(e.name[0], "..")) {
          return None;
        }
        if e.name == [MANIFEST] {
          if e.payload != Manifest(1, domain) {
            return None;
          }
          manifest := true;
        } else {
          if e.kind == Other {
            return None;
          }
          if |e.name| >= 2 && e.name[0] == FILES && WantFiles(c) {
            var rel := e.name[1..];
            var made := MkdirAll(files, if e.kind == Directory then rel else rel[..|rel| - 1]);
            if made.None? {
              return None;
            }
            files := made.value;
            if e.kind != Directory {
              if rel in files {
                return None;
              }
              files := files[rel := Content(RawBytes(e.payload))];
            }
          } else if |e.name| >= 2 && e.name[0] == DATABASES && WantDatabases(c) {
            var base := e.name[|e.name| - 1];
            if e.kind != Regular || !HasSuffix(base, SUFFIX) || base in dumps {
              return None;
            }
            dumps := dumps[base := RawBytes(e.payload)];
          }
        }
        assert Unpacked(before, e, domain, c) == Some(Stage(files, dumps, manifest));
        i := i + 1;
      }
      if f.staging == Some(i) || !b.whole {
        return None;
      }
      return Some(Stage(files, dumps, manifest));
    }

    method RestoreArchive(domain: string, b: Bundle, c: Components, dbs: seq<string>, f: Faults) returns (ok: bool)
      modifies this
      ensures (View(), ok) == Restored(old(View()), domain, b, c, dbs, f)
      ensures stage == None
    {
      stage := None;
      var unpacked := Unpack(b, domain, c, f);
      if unpacked.None? {
        return false;
      }
      var st := unpacked.value;
      if !st.manifest {
        return false;
      }
      if WantFiles(c) {
        if st.files == map[] {
          return false;
        }
        if root.None? {
          return false;
        }
        stage := Some(st.files);
        assert aside + [] == aside;
        ok := SwapIn(f);
        if !ok {
          return;
        }
      }
      if WantDatabases(c) {
        var i := 0;
        assert dbs[0..] == dbs;
        ghost var start := databases;
        while i < |dbs|
          invariant 0 <= i <= |dbs|
          invariant Imported(start, st.dumps, dbs, f) == Imported(databases, st.dumps, dbs[i..], f)
          invariant root == if WantFiles(c) then Some(st.files) else old(root)
          invariant aside == if WantFiles(c) then old(aside) + LeftAside(old(root).value, f) else old(aside)
          invariant stage == None
        {
          assert dbs[i..][0] == dbs[i] && dbs[i..][1..] == dbs[i + 1..];
          if dbs[i] + SUFFIX !in st.dumps {
            return false;
          }
          if dbs[i] in f.imports {
            databases := databases[dbs[i] := f.imports[dbs[i]]];
            return false;
          }
          databases := databases[dbs[i] := st.dumps[dbs[i] + SUFFIX]];
          i := i + 1;
        }
      }
      return true;
    }

    // Root away, stage in, and back again when that fails. Any stage left over is removed.
    method SwapIn(f: Faults) returns (ok: bool)
      requires stage.Some? && root.Some?
      modifies this`root, this`aside, this`stage
      ensures stage == None
      ensures ok <==> !f.away && !f.into
      ensures root == if f.away then old(root) else if !f.into then old(stage) else if f.undo then old(root) else None
      ensures aside == old(aside) + LeftAside(old(root).value, f)
    {
      if f.away {
        stage := None;
        return false;
      }
      var moved := root.value;
      root := None;
      if f.into {
        if f.undo {
          root := Some(moved);
        } else {
          aside := aside + [moved];
        }
        stage := None;
        return false;
      }
      root, stage := stage, None;
      if f.kept {
        aside := aside + [moved];
      }
      return true;
    }

    // The end of deployArtifact: `target` may not exist yet, in which case nothing is moved away.
    method DeploySwap(extracted: Option<Tree>, f: Faults) returns (ok: bool)
      modifies this`root, this`aside, this`stage
      ensures ok <==> extracted.Some? && (old(root).Some? ==> !f.away) && !f.into
      ensures ok ==> root == extracted
      ensures !ok && (f.undo || old(root).None?) ==> root == old(root)
      ensures !ok ==> root == old(root) || (root == None && f.into && !f.undo)
      ensures old(root).Some? && root == None ==> aside == old(aside) + [old(root).value]
      ensures stage == None
    {
      if extracted.None? {
        stage := None;
        return false;
      }
      stage := extracted;
      if root.Some? {
        ok := SwapIn(f);
        return;
      }
      if f.into {
        stage := None;
        return false;
      }
      root, stage := stage, None;
      return true;
    }
  }
}
