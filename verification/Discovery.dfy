/** The worklist search for role files below a directory. */
module Discovery {
  import opened Wrappers
  import opened Orders

  datatype IoError = NotFound | Other(message: string)

  /** What reading a directory yields: an error, or its entries in listing order. */
  datatype Dir = Unreadable(error: IoError) | Listing(entries: seq<Entry>)

  /** A directory entry; `Special` is neither a file nor a directory. */
  datatype Entry = File(name: string) | Special(name: string) | Folder(name: string, dir: Dir)

  /** The part of a file name after its last dot; a name whose only dot leads it has none. */
  function Extension(name: string): Option<string> {
    if |name| == 0 || name == ".." then None
    else ExtensionFrom(name, |name| - 1)
  }

  function ExtensionFrom(name: string, i: nat): Option<string>
    requires i < |name|
  {
    if i == 0 then None
    else if name[i] == '.' then Some(name[i+1..])
    else ExtensionFrom(name, i - 1)
  }

  predicate IsToml(name: string) {
    Extension(name) == Some("toml")
  }

  /** The names that qualify are exactly those ending in `.toml` with something before it. */
  lemma {:induction false} TomlNames(name: string)
    ensures IsToml(name) <==> exists stem :: stem != [] && name == stem + ".toml"
  {
    if IsToml(name) {
      var stem := SplitExtension(name, |name| - 1);
      assert stem != [] && name == stem + ".toml";
    }
    forall stem | stem != [] && name == stem + ".toml" ensures IsToml(name) {
      var n := |stem|;
      assert name[n] == '.' && name[n+1] == 't' && name[n+2] == 'o' && name[n+3] == 'm' && name[n+4] == 'l';
      assert ExtensionFrom(name, n) == Some(name[n+1..]);
      assert ExtensionFrom(name, n + 1) == ExtensionFrom(name, n);
      assert ExtensionFrom(name, n + 2) == ExtensionFrom(name, n + 1);
      assert ExtensionFrom(name, n + 3) == ExtensionFrom(name, n + 2);
      assert ExtensionFrom(name, n + 4) == ExtensionFrom(name, n + 3);
      assert name[n+1..] == "toml";
    }
  }

  lemma {:induction false} SplitExtension(name: string, i: nat) returns (stem: string)
    requires i < |name| && ExtensionFrom(name, i) == Some("toml")
    ensures stem != [] && name == stem + ".toml"
  {
    if name[i] == '.' {
      stem := name[..i];
      assert name == name[..i] + [name[i]] + name[i+1..];
    } else {
      stem := SplitExtension(name, i - 1);
    }
  }

  // ----- What the search should find -----

  /** All role files below a directory, with multiplicity. */
  ghost function RoleFiles(at: Path, dir: Dir): multiset<Path>
    decreases dir
  {
    if dir.Listing? then EntriesFiles(at, dir.entries) else multiset{}
  }

  ghost function EntriesFiles(at: Path, entries: seq<Entry>): multiset<Path>
    decreases entries
  {
    if entries == [] then multiset{}
    else EntryFiles(at, entries[0]) + EntriesFiles(at, entries[1..])
  }

  ghost function EntryFiles(at: Path, entry: Entry): multiset<Path>
    decreases entry
  {
    match entry
    case File(name) => if IsToml(name) then multiset{at + [name]} else multiset{}
    case Special(_) => multiset{}
    case Folder(name, dir) => RoleFiles(at + [name], dir)
  }

  /** Some directory at or below this one gives an error other than not-found. */
  ghost predicate Broken(dir: Dir)
    decreases dir
  {
    match dir
    case Unreadable(e) => e != NotFound
    case Listing(entries) => exists e :: e in entries && e.Folder? && Broken(e.dir)
  }

  /** The error met first when a directory is read before its folders and later folders are
      read, with everything below them, before earlier ones. */
  ghost function FirstError(dir: Dir): Option<IoError>
    decreases dir
  {
    match dir
    case Unreadable(e) => if e == NotFound then None else Some(e)
    case Listing(entries) => EntriesError(entries)
  }

  ghost function EntriesError(entries: seq<Entry>): Option<IoError>
    decreases entries
  {
    if entries == [] then None
    else
      var n := |entries| - 1;
      EntryError(entries[n]).Or(EntriesError(entries[..n]))
  }

  ghost function EntryError(entry: Entry): Option<IoError>
    decreases entry
  {
    if entry.Folder? then FirstError(entry.dir) else None
  }

  lemma {:induction false} BrokenHasError(dir: Dir)
    ensures Broken(dir) <==> FirstError(dir).Some?
    ensures FirstError(dir).Some? ==> FirstError(dir).value != NotFound
    decreases dir
  {
    if dir.Listing? {
      EntriesHaveError(dir.entries);
    }
  }

  lemma {:induction false} EntriesHaveError(entries: seq<Entry>)
    ensures Broken(Listing(entries)) <==> EntriesError(entries).Some?
    ensures EntriesError(entries).Some? ==> EntriesError(entries).value != NotFound
    decreases entries
  {
    if entries != [] {
      var n := |entries| - 1;
      EntriesHaveError(entries[..n]);
      if entries[n].Folder? { BrokenHasError(entries[n].dir); }
      assert entries[..n] + entries[n+1..] == entries[..n];
      BrokenEntry(entries, n, entries[..n]);
    }
  }

  /** Going down by these positions in the listings ends at a directory that gives this error. */
  ghost predicate ErrorAt(dir: Dir, a: seq<nat>, e: IoError)
    decreases |a|
  {
    if a == [] then dir == Unreadable(e) && e != NotFound
    else dir.Listing? && a[0] < |dir.entries| && dir.entries[a[0]].Folder? && ErrorAt(dir.entries[a[0]].dir, a[1..], e)
  }

  /** A directory is read before those below it, and after all those below later entries. */
  predicate ReadBefore(a: seq<nat>, b: seq<nat>) {
    b != [] && (a == [] || a[0] > b[0] || (a[0] == b[0] && ReadBefore(a[1..], b[1..])))
  }

  /** The error is that of a directory read before every other one that gives an error. */
  ghost predicate MetFirst(dir: Dir, a: seq<nat>, e: IoError) {
    ErrorAt(dir, a, e) && forall b, e' :: ErrorAt(dir, b, e') ==> b == a || ReadBefore(a, b)
  }

  ghost predicate NoErrors(dir: Dir) {
    forall a, e :: !ErrorAt(dir, a, e)
  }

  /** The search reports the error met first, and none only if there is none. */
  lemma {:induction false} FirstErrorIs(dir: Dir)
    ensures FirstError(dir).None? <==> NoErrors(dir)
    ensures FirstError(dir).Some? ==> exists a :: MetFirst(dir, a, FirstError(dir).value)
    decreases dir
  {
    match dir {
      case Unreadable(e) =>
        if e != NotFound {
          var here: seq<nat> := [];
          assert ErrorAt(dir, here, e) && MetFirst(dir, here, e);
        }
      case Listing(entries) => EntriesErrorIs(entries);
    }
  }

  lemma {:induction false} EntriesErrorIs(entries: seq<Entry>)
    ensures EntriesError(entries).None? <==> NoErrors(Listing(entries))
    ensures EntriesError(entries).Some? ==> exists a :: MetFirst(Listing(entries), a, EntriesError(entries).value)
    decreases entries
  {
    if entries != [] {
      var n := |entries| - 1;
      var last, all, before := entries[n], Listing(entries), Listing(entries[..n]);
      EntriesErrorIs(entries[..n]);
      if last.Folder? { FirstErrorIs(last.dir); }
      if EntryError(last).Some? {
        var a :| MetFirst(last.dir, a, EntryError(last).value);
        LastEntryFirst(entries, a, EntryError(last).value);
      } else {
        SameErrors(entries);
        if EntriesError(entries).Some? {
          var a :| MetFirst(before, a, EntriesError(entries).value);
          assert MetFirst(all, a, EntriesError(entries).value);
        }
      }
    }
  }

  lemma LastEntryFirst(entries: seq<Entry>, a: seq<nat>, e: IoError)
    requires entries != [] && entries[|entries|-1].Folder? && MetFirst(entries[|entries|-1].dir, a, e)
    ensures MetFirst(Listing(entries), [|entries| - 1] + a, e)
  {
    var at := [|entries| - 1] + a;
    assert at[1..] == a;
    assert ErrorAt(Listing(entries), at, e);
    forall b, e' | ErrorAt(Listing(entries), b, e') ensures b == at || ReadBefore(at, b) {
      if b[0] == at[0] {
        assert ErrorAt(entries[|entries|-1].dir, b[1..], e');
        assert b == [b[0]] + b[1..];
        assert at == [b[0]] + a;
      }
    }
  }

  /** A last entry without errors adds none. */
  lemma SameErrors(entries: seq<Entry>)
    requires entries != [] && (entries[|entries|-1].Folder? ==> NoErrors(entries[|entries|-1].dir))
    ensures forall a, e :: ErrorAt(Listing(entries), a, e) <==> ErrorAt(Listing(entries[..|entries|-1]), a, e)
  {
    var n := |entries| - 1;
    forall a, e ensures ErrorAt(Listing(entries), a, e) <==> ErrorAt(Listing(entries[..n]), a, e) {
      if a != [] && a[0] == n && entries[n].Folder? {
        assert !ErrorAt(entries[n].dir, a[1..], e);
      }
    }
  }

  /** Following the names in `address` from `dir` ends at a plain file. */
  ghost predicate FileAt(dir: Dir, address: Path)
    decreases |address|
  {
    dir.Listing? && address != [] &&
    exists e :: e in dir.entries && e.name == address[0] &&
      (if |address| == 1 then e.File? else e.Folder? && FileAt(e.dir, address[1..]))
  }

  lemma {:induction false} EntriesFilesMember(at: Path, entries: seq<Entry>, p: Path)
    ensures p in EntriesFiles(at, entries) <==> exists e :: e in entries && p in EntryFiles(at, e)
  {
    if entries != [] {
      EntriesFilesMember(at, entries[1..], p);
      assert p in EntriesFiles(at, entries) <==> p in EntryFiles(at, entries[0]) || p in EntriesFiles(at, entries[1..]);
      assert entries[0] in entries;
      assert forall e :: e in entries <==> e == entries[0] || e in entries[1..];
    }
  }

  /** The files found are exactly those at a reachable address whose last name is a role file name. */
  lemma {:induction false} RoleFilesAreReachable(at: Path, dir: Dir, p: Path)
    ensures p in RoleFiles(at, dir) <==>
            exists address :: p == at + address && FileAt(dir, address) && IsToml(address[|address|-1])
  {
    if p in RoleFiles(at, dir) {
      var address := AddressOf(at, dir, p);
    }
    forall address | p == at + address && FileAt(dir, address) && IsToml(address[|address|-1])
      ensures p in RoleFiles(at, dir)
    {
      AddressFound(at, dir, address);
    }
  }

  lemma {:induction false} AddressOf(at: Path, dir: Dir, p: Path) returns (address: Path)
    requires p in RoleFiles(at, dir)
    ensures p == at + address && FileAt(dir, address) && IsToml(address[|address|-1])
    decreases dir
  {
    EntriesFilesMember(at, dir.entries, p);
    var e :| e in dir.entries && p in EntryFiles(at, e);
    if e.Folder? {
      var rest := AddressOf(at + [e.name], e.dir, p);
      address := [e.name] + rest;
      assert address[1..] == rest;
      assert at + address == at + [e.name] + rest;
    } else {
      address := [e.name];
    }
  }

  lemma {:induction false} AddressFound(at: Path, dir: Dir, address: Path)
    requires FileAt(dir, address) && IsToml(address[|address|-1])
    ensures at + address in RoleFiles(at, dir)
    decreases |address|
  {
    var e :| e in dir.entries && e.name == address[0] &&
      (if |address| == 1 then e.File? else e.Folder? && FileAt(e.dir, address[1..]));
    if |address| == 1 {
      assert at + address == at + [e.name];
    } else {
      AddressFound(at + [e.name], e.dir, address[1..]);
      assert at + address == at + [e.name] + address[1..];
    }
    EntriesFilesMember(at, dir.entries, at + address);
  }

  // ----- The traversal -----

  /** No directory lists a name twice. */
  ghost predicate NamedApart(dir: Dir)
    decreases dir
  {
    dir.Listing? ==>
      && (forall i, j :: 0 <= i < j < |dir.entries| ==> dir.entries[i].name != dir.entries[j].name)
      && (forall e :: e in dir.entries && e.Folder? ==> NamedApart(e.dir))
  }

  lemma {:induction false} FilesBelow(at: Path, dir: Dir, p: Path)
    ensures p in RoleFiles(at, dir) ==> at < p
    decreases dir
  {
    if dir.Listing? && p in RoleFiles(at, dir) {
      EntriesFilesMember(at, dir.entries, p);
      var e :| e in dir.entries && p in EntryFiles(at, e);
      EntryBelow(at, e, p);
    }
  }

  lemma {:induction false} EntryBelow(at: Path, e: Entry, p: Path)
    ensures p in EntryFiles(at, e) ==> |p| > |at| && p[..|at|] == at && p[|at|] == e.name
    decreases e
  {
    if e.Folder? {
      FilesBelow(at + [e.name], e.dir, p);
    }
  }

  /** A file is found once. */
  lemma {:induction false} FoundOnce(at: Path, dir: Dir, p: Path)
    requires NamedApart(dir)
    ensures RoleFiles(at, dir)[p] <= 1
    decreases dir
  {
    if dir.Listing? {
      EntriesFoundOnce(at, dir.entries, p);
    }
  }

  lemma {:induction false} EntriesFoundOnce(at: Path, entries: seq<Entry>, p: Path)
    requires NamedApart(Listing(entries))
    ensures EntriesFiles(at, entries)[p] <= 1
    decreases entries
  {
    if entries != [] {
      var e, rest := entries[0], entries[1..];
      assert e in entries && forall x :: x in rest ==> x in entries;
      EntriesFoundOnce(at, rest, p);
      EntryBelow(at, e, p);
      if e.Folder? { FoundOnce(at + [e.name], e.dir, p); }
      if p in EntryFiles(at, e) && p in EntriesFiles(at, rest) {
        EntriesFilesMember(at, rest, p);
        var x :| x in rest && p in EntryFiles(at, x);
        EntryBelow(at, x, p);
        assert false;
      }
    }
  }

  function SortPaths(files: seq<Path>): (r: seq<Path>)
    ensures Sorted(PathLeq, r) && multiset(r) == multiset(files)
  {
    PathLeqTotal();
    Sort(PathLeq, files)
  }

  /** A directory waiting on the stack. */
  datatype Pending = Pending(at: Path, dir: Dir)

  ghost function PendingFiles(stack: seq<Pending>): multiset<Path> {
    if stack == [] then multiset{}
    else PendingFiles(stack[..|stack|-1]) + RoleFiles(stack[|stack|-1].at, stack[|stack|-1].dir)
  }

  ghost function PendingError(stack: seq<Pending>): Option<IoError> {
    if stack == [] then None
    else FirstError(stack[|stack|-1].dir).Or(PendingError(stack[..|stack|-1]))
  }

  /** Directories in the trees on the stack. */
  ghost function Weight(stack: seq<Pending>): nat {
    if stack == [] then 0 else Weight(stack[..|stack|-1]) + DirWeight(stack[|stack|-1].dir)
  }

  ghost function DirWeight(dir: Dir): nat
    decreases dir
  {
    if dir.Listing? then 1 + EntriesWeight(dir.entries) else 1
  }

  ghost function EntriesWeight(entries: seq<Entry>): nat
    decreases entries
  {
    if entries == [] then 0
    else (if entries[0].Folder? then DirWeight(entries[0].dir) else 0) + EntriesWeight(entries[1..])
  }

  lemma PendingPush(stack: seq<Pending>, p: Pending)
    ensures PendingFiles(stack + [p]) == PendingFiles(stack) + RoleFiles(p.at, p.dir)
    ensures Weight(stack + [p]) == Weight(stack) + DirWeight(p.dir)
    ensures PendingError(stack + [p]) == FirstError(p.dir).Or(PendingError(stack))
  {
    var s := stack + [p];
    assert s[..|s|-1] == stack && s[|s|-1] == p;
  }

  function FilesAfter(at: Path, entry: Entry, files: seq<Path>): seq<Path> {
    if entry.File? && IsToml(entry.name) then files + [at + [entry.name]] else files
  }

  function StackAfter(at: Path, entry: Entry, stack: seq<Pending>): seq<Pending> {
    if entry.Folder? then stack + [Pending(at + [entry.name], entry.dir)] else stack
  }

  /** One entry moves its files from what is ahead to what is found or stacked. */
  lemma EntryFilesMove(at: Path, entry: Entry, files: seq<Path>, stack: seq<Pending>)
    ensures multiset(FilesAfter(at, entry, files)) + PendingFiles(StackAfter(at, entry, stack)) ==
            multiset(files) + PendingFiles(stack) + EntryFiles(at, entry)
  {
    if entry.Folder? {
      PendingPush(stack, Pending(at + [entry.name], entry.dir));
      BagAssoc(multiset(files), PendingFiles(stack), EntryFiles(at, entry));
    }
  }

  lemma EntryMoves(at: Path, entry: Entry, stack: seq<Pending>)
    ensures Weight(StackAfter(at, entry, stack)) == Weight(stack) + if entry.Folder? then DirWeight(entry.dir) else 0
    ensures PendingError(StackAfter(at, entry, stack)) == EntryError(entry).Or(PendingError(stack))
  {
    if entry.Folder? {
      PendingPush(stack, Pending(at + [entry.name], entry.dir));
    }
  }

  /** After `i` entries: what is found, stacked and still ahead adds up to fixed totals, and the
      error to come is the last one met so far or that of the stack below. */
  ghost predicate Scanned(at: Path, entries: seq<Entry>, i: nat, files: seq<Path>, stack: seq<Pending>,
                          total: multiset<Path>, weight: nat, below: Option<IoError>)
    requires i <= |entries|
  {
    && multiset(files) + PendingFiles(stack) + EntriesFiles(at, entries[i..]) == total
    && Weight(stack) + EntriesWeight(entries[i..]) == weight
    && PendingError(stack) == EntriesError(entries[..i]).Or(below)
  }

  lemma ScanStep(at: Path, entries: seq<Entry>, i: nat, files: seq<Path>, stack: seq<Pending>,
                 total: multiset<Path>, weight: nat, below: Option<IoError>)
    requires i < |entries| && Scanned(at, entries, i, files, stack, total, weight, below)
    ensures Scanned(at, entries, i + 1, FilesAfter(at, entries[i], files), StackAfter(at, entries[i], stack), total, weight, below)
  {
    var entry, ahead, rest := entries[i], entries[i..], entries[i+1..];
    assert ahead[0] == entry && ahead[1..] == rest;
    EntryMoves(at, entry, stack);
    assert entries[..i+1][..i] == entries[..i];
    calc {
      total;
      multiset(files) + PendingFiles(stack) + (EntryFiles(at, entry) + EntriesFiles(at, rest));
      { BagAssoc(multiset(files) + PendingFiles(stack), EntryFiles(at, entry), EntriesFiles(at, rest)); }
      multiset(files) + PendingFiles(stack) + EntryFiles(at, entry) + EntriesFiles(at, rest);
      { EntryFilesMove(at, entry, files, stack); }
      multiset(FilesAfter(at, entry, files)) + PendingFiles(StackAfter(at, entry, stack)) + EntriesFiles(at, rest);
    }
  }

  lemma ScanStart(at: Path, entries: seq<Entry>, files: seq<Path>, stack: seq<Pending>)
    ensures Scanned(at, entries, 0, files, stack, multiset(files) + PendingFiles(stack) + EntriesFiles(at, entries),
                    Weight(stack) + EntriesWeight(entries), PendingError(stack))
  {
    assert entries[0..] == entries;
  }

  lemma ScanEnd(at: Path, entries: seq<Entry>, files: seq<Path>, stack: seq<Pending>,
                total: multiset<Path>, weight: nat, below: Option<IoError>)
    requires Scanned(at, entries, |entries|, files, stack, total, weight, below)
    ensures multiset(files) + PendingFiles(stack) == total && Weight(stack) == weight
    ensures PendingError(stack) == EntriesError(entries).Or(below)
  {
    assert entries[..|entries|] == entries;
  }

  /** One directory read: its role files are collected, its folders pushed in listing order. */
  method ScanEntries(at: Path, entries: seq<Entry>, files: seq<Path>, stack: seq<Pending>)
    returns (files': seq<Path>, stack': seq<Pending>)
    ensures multiset(files') + PendingFiles(stack') ==
            multiset(files) + PendingFiles(stack) + EntriesFiles(at, entries)
    ensures Weight(stack') == Weight(stack) + EntriesWeight(entries)
    ensures PendingError(stack') == EntriesError(entries).Or(PendingError(stack))
  {
    files', stack' := files, stack;
    ghost var total := multiset(files) + PendingFiles(stack) + EntriesFiles(at, entries);
    ghost var weight, below := Weight(stack) + EntriesWeight(entries), PendingError(stack);
    ScanStart(at, entries, files, stack);
    for i := 0 to |entries|
      invariant Scanned(at, entries, i, files', stack', total, weight, below)
    {
      ScanStep(at, entries, i, files', stack', total, weight, below);
      var entry := entries[i];
      var path := at + [entry.name];
      if entry.Folder? {
        stack' := stack' + [Pending(path, entry.dir)];
      } else if entry.File? && IsToml(entry.name) {
        files' := files' + [path];
      }
    }
    ScanEnd(at, entries, files', stack', total, weight, below);
  }

  /**
   The traversal: fails exactly when some reachable directory cannot be read for a reason
   other than being absent, and otherwise returns the sorted role files.
   */
  method CollectRoleFiles(root: Path, dir: Dir) returns (r: Result<seq<Path>, IoError>)
    ensures r.Failure? <==> Broken(dir)
    ensures r.Failure? ==> FirstError(dir) == Some(r.error)
    ensures r.Success? <==> NoErrors(dir)
    ensures r.Failure? ==> exists a :: MetFirst(dir, a, r.error)
    ensures r.Success? ==> Sorted(PathLeq, r.value) && multiset(r.value) == RoleFiles(root, dir)
    ensures r.Success? ==> r.value == Collected(root, dir)
  {
    var files: seq<Path> := [];
    var stack := [Pending(root, dir)];
    SearchStart(root, dir);
    BrokenHasError(dir);
    FirstErrorIs(dir);
    while stack != []
      invariant Searching(root, dir, files, stack)
      decreases Weight(stack)
    {
      var top := stack[|stack|-1];
      SearchPop(root, dir, files, stack);
      stack := stack[..|stack|-1];
      match top.dir {
        case Unreadable(NotFound) =>
        case Unreadable(error) =>
          return Failure(error);
        case Listing(entries) =>
          files, stack := ScanEntries(top.at, entries, files, stack);
      }
    }
    CollectedUnique(root, dir, SortPaths(files));
    return Success(SortPaths(files));
  }

  /** Files found and files below the stack make up all role files; errors are still to come. */
  ghost predicate Searching(root: Path, dir: Dir, files: seq<Path>, stack: seq<Pending>) {
    && multiset(files) + PendingFiles(stack) == RoleFiles(root, dir)
    && PendingError(stack) == FirstError(dir)
  }

  lemma SearchStart(root: Path, dir: Dir)
    ensures Searching(root, dir, [], [Pending(root, dir)])
  {
    PendingPush([], Pending(root, dir));
    assert [] + [Pending(root, dir)] == [Pending(root, dir)];
  }

  /** Taking the last directory off the stack. */
  lemma SearchPop(root: Path, dir: Dir, files: seq<Path>, stack: seq<Pending>)
    requires Searching(root, dir, files, stack) && stack != []
    ensures var top, rest := stack[|stack|-1], stack[..|stack|-1];
            && multiset(files) + PendingFiles(rest) + RoleFiles(top.at, top.dir) == RoleFiles(root, dir)
            && FirstError(top.dir).Or(PendingError(rest)) == FirstError(dir)
            && Weight(stack) == Weight(rest) + DirWeight(top.dir)
  {
    var top, rest := stack[|stack|-1], stack[..|stack|-1];
    assert stack == rest + [top];
    PendingPush(rest, top);
    BagAssoc(multiset(files), PendingFiles(rest), RoleFiles(top.at, top.dir));
  }

  // ----- The result as a function of the tree, and its independence of listing order -----

  ghost function Bag<T>(m: multiset<T>): (s: seq<T>)
    ensures multiset(s) == m
  {
    if m == multiset{} then []
    else
      var x :| x in m;
      [x] + Bag(m - multiset{x})
  }

  /** The sorted list of role files below a directory. */
  ghost function Collected(root: Path, dir: Dir): (files: seq<Path>)
    ensures Sorted(PathLeq, files) && multiset(files) == RoleFiles(root, dir)
  {
    SortPaths(Bag(RoleFiles(root, dir)))
  }

  lemma CollectedUnique(root: Path, dir: Dir, files: seq<Path>)
    requires Sorted(PathLeq, files) && multiset(files) == RoleFiles(root, dir)
    ensures files == Collected(root, dir)
  {
    PathLeqTotal();
    SortedUnique(PathLeq, files, Collected(root, dir));
  }

  /** The same directory tree, read in any listing order at every level. */
  ghost predicate SameDir(a: Dir, b: Dir)
    decreases a
  {
    if a.Listing? && b.Listing? then SameEntries(a.entries, b.entries) else a == b
  }

  ghost predicate SameEntries(a: seq<Entry>, b: seq<Entry>)
    decreases a
  {
    if a == [] then b == []
    else exists j | 0 <= j < |b| :: SameEntry(a[0], b[j]) && SameEntries(a[1..], b[..j] + b[j+1..])
  }

  ghost predicate SameEntry(a: Entry, b: Entry)
    decreases a
  {
    if a.Folder? && b.Folder? then a.name == b.name && SameDir(a.dir, b.dir) else a == b
  }

  lemma BagAssoc<T>(a: multiset<T>, b: multiset<T>, c: multiset<T>)
    ensures a + b + c == a + (b + c)
  {
  }

  lemma {:induction false} EntriesFilesConcat(at: Path, a: seq<Entry>, b: seq<Entry>)
    ensures EntriesFiles(at, a + b) == EntriesFiles(at, a) + EntriesFiles(at, b)
  {
    if a == [] {
      assert a + b == b;
    } else {
      var first, rest, more := EntryFiles(at, a[0]), EntriesFiles(at, a[1..]), EntriesFiles(at, b);
      assert (a + b)[0] == a[0] && (a + b)[1..] == a[1..] + b;
      calc {
        EntriesFiles(at, a + b);
        first + EntriesFiles(at, a[1..] + b);
        { EntriesFilesConcat(at, a[1..], b); }
        first + (rest + more);
        { BagAssoc(first, rest, more); }
        first + rest + more;
      }
    }
  }

  lemma {:induction false} SameDirFiles(at: Path, a: Dir, b: Dir)
    requires SameDir(a, b)
    ensures RoleFiles(at, a) == RoleFiles(at, b)
    decreases a
  {
    if a.Listing? && b.Listing? {
      SameEntriesFiles(at, a.entries, b.entries);
    }
  }

  lemma {:induction false} SameEntriesFiles(at: Path, a: seq<Entry>, b: seq<Entry>)
    requires SameEntries(a, b)
    ensures EntriesFiles(at, a) == EntriesFiles(at, b)
    decreases a
  {
    if a != [] {
      var j :| 0 <= j < |b| && SameEntry(a[0], b[j]) && SameEntries(a[1..], b[..j] + b[j+1..]);
      SameEntriesFiles(at, a[1..], b[..j] + b[j+1..]);
      if a[0].Folder? && b[j].Folder? {
        SameDirFiles(at + [a[0].name], a[0].dir, b[j].dir);
      }
      FilesWithout(at, b, j);
    }
  }

  /** Taking one entry out of a listing takes its files out. */
  lemma FilesWithout(at: Path, b: seq<Entry>, j: nat)
    requires j < |b|
    ensures EntriesFiles(at, b) == EntryFiles(at, b[j]) + EntriesFiles(at, b[..j] + b[j+1..])
  {
    EntriesFilesConcat(at, b[..j], b[j..]);
    EntriesFilesConcat(at, b[..j], b[j+1..]);
    assert b == b[..j] + b[j..] && b[j..][0] == b[j] && b[j..][1..] == b[j+1..];
  }

  lemma {:induction false} SameDirBroken(a: Dir, b: Dir)
    requires SameDir(a, b)
    ensures Broken(a) <==> Broken(b)
    decreases a
  {
    if a.Listing? && b.Listing? {
      SameEntriesBroken(a.entries, b.entries);
    }
  }

  lemma {:induction false} SameEntriesBroken(a: seq<Entry>, b: seq<Entry>)
    requires SameEntries(a, b)
    ensures Broken(Listing(a)) <==> Broken(Listing(b))
    decreases a
  {
    if a != [] {
      var j :| 0 <= j < |b| && SameEntry(a[0], b[j]) && SameEntries(a[1..], b[..j] + b[j+1..]);
      var rest := b[..j] + b[j+1..];
      SameEntriesBroken(a[1..], rest);
      if a[0].Folder? && b[j].Folder? {
        SameDirBroken(a[0].dir, b[j].dir);
      }
      BrokenEntry(a, 0, a[1..]);
      BrokenEntry(b, j, rest);
    }
  }

  lemma BrokenEntry(s: seq<Entry>, j: nat, rest: seq<Entry>)
    requires j < |s| && rest == s[..j] + s[j+1..]
    ensures Broken(Listing(s)) <==> (s[j].Folder? && Broken(s[j].dir)) || Broken(Listing(rest))
  {
    assert s == s[..j] + [s[j]] + s[j+1..];
    assert forall e :: e in s <==> e == s[j] || e in rest;
  }

  /** The search does not depend on the order in which directories list their entries. */
  lemma {:induction false} ListingOrderIrrelevant(root: Path, a: Dir, b: Dir)
    requires SameDir(a, b)
    ensures Broken(a) <==> Broken(b)
    ensures Collected(root, a) == Collected(root, b)
  {
    SameDirFiles(root, a, b);
    SameDirBroken(a, b);
    CollectedUnique(root, b, Collected(root, a));
  }
}
