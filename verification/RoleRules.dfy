/** What the layered loader promises, stated without its loops. */
module RoleRules {
  import opened Wrappers
  import opened Orders
  import opened Discovery
  import opened RoleConfig
  import opened RoleLoader

  // ----- One definition, from what the table and the file say -----

  /** What the host yields for a role file: readable text that deserialises. */
  ghost predicate FileHolds(host: Host, path: Path, raw: RawRoleFile) {
    && host.readText(path).Success?
    && host.toml(host.readText(path).value, if path == [] then [] else path[..|path|-1]) == Success(raw)
  }

  /** The file names its role, has instructions, and its other fields are in order. */
  ghost predicate CompleteFile(raw: RawRoleFile) {
    && HasName(raw) && raw.instructions.Some? && NotBlank(raw.instructions)
    && NotBlank(raw.description) && ValidNicknames(TrimAllOption(raw.nicknames))
  }

  /** A discovered file defines a role if and only if it is readable, deserialises, names its role,
      has instructions, and its other fields are in order. */
  lemma {:induction false} DiscoveredAcceptedIff(host: Host, path: Path)
    ensures ReadDiscovered(host, path).Success? <==>
            (exists raw :: FileHolds(host, path, raw) && CompleteFile(raw))
    ensures forall raw :: FileHolds(host, path, raw) && ReadDiscovered(host, path).Success? ==>
              ReadDiscovered(host, path).value ==
              Named(Trim(raw.name.value), Role(TrimOption(raw.description), Some(path), TrimAllOption(raw.nicknames)))
  {
    if host.readText(path).Success? {
      var toml := host.toml(host.readText(path).value, Parent(path));
      if toml.Success? {
        RoleFileAcceptedIff(path, toml.value, None);
        assert FileHolds(host, path, toml.value);
      }
    }
  }

  /** A declaration without a config file is taken from the table alone. */
  lemma {:induction false} DeclaredAloneIff(host: Host, d: Declaration)
    requires d.role.configFile.None?
    ensures ReadDeclared(host, d).Success? <==>
            NotBlank(d.role.description) && ValidNicknames(TrimAllOption(d.role.nicknames))
    ensures ReadDeclared(host, d).Success? ==>
            ReadDeclared(host, d).value == Named(d.name, Role(TrimOption(d.role.description), None, TrimAllOption(d.role.nicknames)))
  {
    if d.role.nicknames.Some? { NicknamesAccepted(OfDeclared(d.name), d.role.nicknames.value); }
  }

  /** With a config file, which must exist, the file's settings and name win over the table's. */
  lemma {:induction false} DeclaredWithFileIff(host: Host, d: Declaration, path: Path)
    requires d.role.configFile == Some(path)
    ensures ReadDeclared(host, d).Success? <==>
            && host.isFile(path) == Success(true)
            && NotBlank(d.role.description) && ValidNicknames(TrimAllOption(d.role.nicknames))
            && exists raw :: FileHolds(host, path, raw) && NotBlank(raw.description) && NotBlank(raw.instructions)
                 && ValidNicknames(TrimAllOption(raw.nicknames))
    ensures forall raw :: FileHolds(host, path, raw) && ReadDeclared(host, d).Success? ==>
              ReadDeclared(host, d).value == Named(
                if HasName(raw) then Trim(raw.name.value) else d.name,
                Role(TrimOption(raw.description).Or(TrimOption(d.role.description)), Some(path),
                     TrimAllOption(raw.nicknames).Or(TrimAllOption(d.role.nicknames))))
  {
    if d.role.nicknames.Some? { NicknamesAccepted(OfDeclared(d.name), d.role.nicknames.value); }
    if host.readText(path).Success? {
      var toml := host.toml(host.readText(path).value, Parent(path));
      if toml.Success? {
        RoleFileAcceptedIff(path, toml.value, Some(d.name));
        assert FileHolds(host, path, toml.value);
      }
    }
  }

  /** Which error a declaration gives: the first of these that applies, in this order. */
  lemma {:induction false} DeclaredErrorIs(host: Host, d: Declaration)
    ensures var r := ReadDeclared(host, d);
            var file := d.role.configFile;
            && (forall io :: file.Some? && host.isFile(file.value) == Failure(io) ==>
                  r == Failure(ConfigFileAbsent(d.name, file.value, io)))
            && (file.Some? && host.isFile(file.value) == Success(false) ==>
                  r == Failure(ConfigFileNotFile(d.name, file.value)))
            && (file.None? || host.isFile(file.value) == Success(true) ==>
                  && (!NotBlank(d.role.description) ==> r == Failure(BlankDescription(OfDeclared(d.name))))
                  && (NotBlank(d.role.description) ==>
                       var names := NormalizedNicknames(OfDeclared(d.name), d.role.nicknames);
                       && (forall e :: names == Failure(e) ==> r == Failure(e))
                       && (names.Success? && file.Some? ==> FileErrorPasses(host, file.value, Some(d.name), r))))
  {
  }

  /** The error of reading the role file, if there is one, is the error of the definition. */
  ghost predicate FileErrorPasses(host: Host, path: Path, hint: Option<string>, r: Read) {
    var dir := if path == [] then [] else path[..|path|-1];
    match host.readText(path)
    case Failure(io) => r == Failure(ReadFailed(io))
    case Success(text) =>
      match host.toml(text, dir)
      case Failure(message) => r == Failure(BadToml(path, message))
      case Success(raw) =>
        forall e :: ParseRoleFile(path, Success(raw), hint) == Failure(e) ==> r == Failure(e)
  }

  /** A discovered file gives the error of reading it, without a role name given. */
  lemma {:induction false} DiscoveredErrorIs(host: Host, path: Path)
    ensures FileErrorPasses(host, path, None, ReadDiscovered(host, path))
  {
  }

  // ----- One layer: the first definition that can be read -----

  predicate Names(read: Read, n: string) {
    read.Success? && read.value.name == n
  }

  /** A definition that was read from this config file. */
  predicate Claims(read: Read, p: Path) {
    read.Success? && read.value.role.configFile == Some(p)
  }

  /** Position `i` holds the first successfully read definition of `n`. */
  ghost predicate FirstRead(results: seq<Read>, n: string, i: nat) {
    i < |results| && Names(results[i], n) && forall j :: 0 <= j < i ==> !Names(results[j], n)
  }

  lemma {:induction false} KeptNames(results: seq<Read>, n: string)
    ensures n in Kept(results) <==> exists i: nat :: i < |results| && Names(results[i], n)
  {
    if results != [] {
      var k := |results| - 1;
      var init := results[..k];
      KeptNames(init, n);
      assert forall i: nat :: i < k ==> init[i] == results[i];
      assert n in Kept(results) <==> n in Kept(init) || Names(results[k], n);
    }
  }

  lemma {:induction false} KeptRole(results: seq<Read>, n: string, i: nat)
    requires FirstRead(results, n, i)
    ensures n in Kept(results) && Kept(results)[n] == results[i].value.role
  {
    var k := |results| - 1;
    var init := results[..k];
    if i < k {
      assert FirstRead(init, n, i);
      KeptRole(init, n, i);
    } else {
      KeptNames(init, n);
      assert forall j: nat :: j < k ==> init[j] == results[j];
    }
  }

  lemma KeptIsFirst(results: seq<Read>, n: string)
    ensures n in Kept(results) <==> exists i: nat :: i < |results| && Names(results[i], n)
    ensures forall i: nat :: FirstRead(results, n, i) ==> n in Kept(results) && Kept(results)[n] == results[i].value.role
  {
    KeptNames(results, n);
    forall i: nat | FirstRead(results, n, i) ensures n in Kept(results) && Kept(results)[n] == results[i].value.role {
      KeptRole(results, n, i);
    }
  }

  lemma {:induction false} KeptConcat(a: seq<Read>, b: seq<Read>)
    ensures Kept(a + b) == Kept(b) + Kept(a)
  {
    if b == [] {
      assert a + b == a;
      assert Kept(b) + Kept(a) == Kept(a);
    } else {
      var k := |b| - 1;
      assert (a + b)[..|a + b| - 1] == a + b[..k];
      KeptConcat(a, b[..k]);
      assert Keep(b[k], Kept(b[..k]) + Kept(a)) == Keep(b[k], Kept(b[..k])) + Kept(a);
    }
  }

  lemma {:induction false} UnclaimedIs(files: seq<Path>, claimed: set<Path>)
    ensures forall p :: p in Unclaimed(files, claimed) <==> p in files && p !in claimed
    ensures Sorted(PathLeq, files) ==> Sorted(PathLeq, Unclaimed(files, claimed))
  {
    if files != [] {
      var k := |files| - 1;
      assert files == files[..k] + [files[k]];
      UnclaimedIs(files[..k], claimed);
      var rest := Unclaimed(files[..k], claimed);
      if Sorted(PathLeq, files) {
        forall i | 0 <= i < |rest| ensures PathLeq(rest[i], files[k]) {
          assert rest[i] in files[..k];
        }
      }
    }
  }

  /**
   A layer keeps, for every name, the first definition that can be read, in the order declared
   entries and then unclaimed role files by path. No file claimed by a declared role that was
   read, kept or not, is read again.
   */
  lemma {:induction false} LayerKeepsFirst(host: Host, layer: Layer, n: string)
    ensures var results := LayerDeclared(host, layer) + LayerDiscovered(host, layer);
            && (n in LayerRoles(host, layer) <==> exists i: nat :: i < |results| && Names(results[i], n))
            && (forall i: nat :: FirstRead(results, n, i) ==>
                  n in LayerRoles(host, layer) && LayerRoles(host, layer)[n] == results[i].value.role)
    ensures Sorted(PathLeq, LayerUnclaimed(host, layer))
    ensures forall p :: p in LayerUnclaimed(host, layer) <==>
              p in FoundFiles(host, layer) && !IsClaimed(host, DeclaredEntries(layer), p)
    ensures forall i :: 0 <= i < |LayerDiscovered(host, layer)| && LayerDiscovered(host, layer)[i].Success? ==>
              LayerDiscovered(host, layer)[i].value.role.configFile == Some(LayerUnclaimed(host, layer)[i])
  {
    KeptConcat(LayerDeclared(host, layer), LayerDiscovered(host, layer));
    KeptIsFirst(LayerDeclared(host, layer) + LayerDiscovered(host, layer), n);
    UnclaimedIs(FoundFiles(host, layer), Claimed(LayerDeclared(host, layer)));
    OwnConfigFiles(host, LayerUnclaimed(host, layer));
    ClaimedAre(host, DeclaredEntries(layer));
  }

  /**
   The two sources of a layer's definitions, each in its order. Declared ones are the entries of the
   table; a declared config file is not read again, kept or not, and every other role file is.
   */
  lemma {:induction false} LayerSources(host: Host, entries: seq<Declaration>, folder: Option<Path>)
    ensures var layer := Layer(Declares(entries), folder);
            && |LayerDeclared(host, layer)| == |entries|
            && (forall i :: 0 <= i < |entries| ==> LayerDeclared(host, layer)[i] == ReadDeclared(host, entries[i]))
            && |LayerDiscovered(host, layer)| == |LayerUnclaimed(host, layer)|
            && (forall i :: 0 <= i < |LayerDiscovered(host, layer)| ==>
                  LayerDiscovered(host, layer)[i] == ReadDiscovered(host, LayerUnclaimed(host, layer)[i]))
            && (forall i, p :: 0 <= i < |entries| && Claims(LayerDeclared(host, layer)[i], p) ==>
                  p !in LayerUnclaimed(host, layer))
            && (forall p :: p in FoundFiles(host, layer) && p !in LayerUnclaimed(host, layer) ==>
                  exists i :: 0 <= i < |entries| && Claims(LayerDeclared(host, layer)[i], p))
  {
    var layer := Layer(Declares(entries), folder);
    var declared := LayerDeclared(host, layer);
    UnclaimedIs(FoundFiles(host, layer), Claimed(declared));
    forall p | p in FoundFiles(host, layer) && p !in LayerUnclaimed(host, layer)
      ensures exists i :: 0 <= i < |entries| && Claims(declared[i], p)
    {
      assert p in Claimed(declared);
      var i :| 0 <= i < |declared| && declared[i].Success? && declared[i].value.role.configFile == Some(p);
      assert Claims(declared[i], p);
    }
  }

  /** The files found for a layer: those below the folder's `agents` directory named like role files. */
  lemma {:induction false} FoundAre(host: Host, layer: Layer, p: Path)
    ensures p in FoundFiles(host, layer) <==>
            && layer.folder.Some?
            && exists address :: p == layer.folder.value + ["agents"] + address
                 && FileAt(host.directory(layer.folder.value + ["agents"]), address) && IsToml(address[|address|-1])
  {
    if layer.folder.Some? {
      var dir := layer.folder.value + ["agents"];
      RoleFilesAreReachable(dir, host.directory(dir), p);
      var files := Collected(dir, host.directory(dir));
      assert p in files <==> p in multiset(files);
    }
  }

  /** The search fails exactly if a directory at or below the folder's `agents` directory gives an
      error other than not-found, and then with the error met first. */
  lemma {:induction false} SearchErrorIs(host: Host, layer: Layer)
    ensures SearchFails(host, layer) <==>
            layer.folder.Some? && !NoErrors(host.directory(layer.folder.value + ["agents"]))
    ensures forall e :: IsSearchError(host, layer, e) ==>
              && layer.folder.Some? && e.ReadFailed?
              && exists a :: MetFirst(host.directory(layer.folder.value + ["agents"]), a, e.io)
  {
    if layer.folder.Some? {
      var tree := host.directory(layer.folder.value + ["agents"]);
      BrokenHasError(tree);
      FirstErrorIs(tree);
    }
  }

  /** A discovered role's config file is the file it was read from. */
  lemma OwnConfigFiles(host: Host, files: seq<Path>)
    ensures forall i :: 0 <= i < |files| && DiscoveredReads(host, files)[i].Success? ==>
              DiscoveredReads(host, files)[i].value.role.configFile == Some(files[i])
  {
  }

  // ----- All layers: precedence field by field -----

  /** What each layer defines for `n`. */
  function Definitions(maps: seq<map<string, Role>>, n: string): (defs: seq<Option<Role>>)
    ensures |defs| == |maps|
  {
    seq(|maps|, i requires 0 <= i < |maps| => Lookup(maps[i], n))
  }

  predicate Describes(def: Option<Role>) {
    def.Some? && def.value.description.Some?
  }

  /** Layer `k` is the lowest whose own definition has a description. */
  ghost predicate IsBase(defs: seq<Option<Role>>, k: nat) {
    k < |defs| && Describes(defs[k]) && forall j :: 0 <= j < k ==> !Describes(defs[j])
  }

  /** The setting in force: made at some position and not overridden later, or made nowhere. */
  ghost predicate Latest<T>(settings: seq<Option<T>>, v: Option<T>) {
    if v.None? then forall i :: 0 <= i < |settings| ==> settings[i].None?
    else exists i :: 0 <= i < |settings| && settings[i] == v && forall j :: i < j < |settings| ==> settings[j].None?
  }

  function Descriptions(defs: seq<Option<Role>>): seq<Option<string>> {
    seq(|defs|, i requires 0 <= i < |defs| => if defs[i].Some? then defs[i].value.description else None)
  }

  function ConfigFiles(defs: seq<Option<Role>>): seq<Option<Path>> {
    seq(|defs|, i requires 0 <= i < |defs| => if defs[i].Some? then defs[i].value.configFile else None)
  }

  function Nicknames(defs: seq<Option<Role>>): seq<Option<seq<string>>> {
    seq(|defs|, i requires 0 <= i < |defs| => if defs[i].Some? then defs[i].value.nicknames else None)
  }

  /** Every field of the role is the latest setting among the definitions. */
  ghost predicate Resolves(defs: seq<Option<Role>>, role: Role) {
    && Latest(Descriptions(defs), role.description)
    && Latest(ConfigFiles(defs), role.configFile)
    && Latest(Nicknames(defs), role.nicknames)
  }

  lemma LatestSnoc<T>(settings: seq<Option<T>>, v: Option<T>, x: Option<T>)
    requires Latest(settings, v)
    ensures Latest(settings + [x], x.Or(v))
  {
    var all := settings + [x];
    if x.Some? {
      assert all[|settings|] == x;
    } else if v.Some? {
      var i :| 0 <= i < |settings| && settings[i] == v && forall j :: i < j < |settings| ==> settings[j].None?;
      assert all[i] == v;
    }
  }

  lemma ResolvesSnoc(defs: seq<Option<Role>>, role: Role, def: Option<Role>)
    requires Resolves(defs, role)
    ensures Resolves(defs + [def], if def.Some? then Overlay(def.value, Some(role)) else role)
  {
    var d := if def.Some? then def.value else Role(None, None, None);
    LatestSnoc(Descriptions(defs), role.description, d.description);
    LatestSnoc(ConfigFiles(defs), role.configFile, d.configFile);
    LatestSnoc(Nicknames(defs), role.nicknames, d.nicknames);
    assert Descriptions(defs + [def]) == Descriptions(defs) + [d.description];
    assert ConfigFiles(defs + [def]) == ConfigFiles(defs) + [d.configFile];
    assert Nicknames(defs + [def]) == Nicknames(defs) + [d.nicknames];
  }

  lemma ResolvesOne(role: Role)
    ensures Resolves([Some(role)], role)
  {
    var none := Role(None, None, None);
    assert Resolves([], none);
    ResolvesSnoc([], none, Some(role));
    assert [] + [Some(role)] == [Some(role)];
  }

  /** A name is loaded or not, and as what, by its base layer and the layers above it. */
  ghost predicate RuleHolds(roles: map<string, Role>, defs: seq<Option<Role>>, n: string) {
    && (n in roles <==> exists k: nat :: IsBase(defs, k))
    && (n in roles ==> roles[n].description.Some?)
    && forall k: nat :: IsBase(defs, k) ==> n in roles && Resolves(defs[k..], roles[n])
  }

  /** Adding one layer's own definition of `n` on top. */
  lemma RuleStep(roles: map<string, Role>, layer: map<string, Role>, defs: seq<Option<Role>>, n: string)
    requires RuleHolds(roles, defs, n)
    ensures RuleHolds(MergeLayer(roles, layer), defs + [Lookup(layer, n)], n)
  {
    var def := Lookup(layer, n);
    var all := defs + [def];
    var merged := MergeLayer(roles, layer);
    MergeAt(roles, layer, n);
    if n in roles {
      var k: nat :| IsBase(defs, k);
      assert IsBase(all, k);
      assert all[k..] == defs[k..] + [def];
      ResolvesSnoc(defs[k..], roles[n], def);
      forall j: nat | IsBase(all, j) ensures j == k {
        assert !(j < k) && !(k < j);
      }
    } else {
      assert forall j: nat :: j < |defs| ==> !Describes(defs[j]) by { NoBase(defs); }
      if Describes(def) {
        assert IsBase(all, |defs|);
        assert all[|defs|..] == [def];
        ResolvesOne(def.value);
      }
    }
  }

  lemma {:induction false} NoBase(defs: seq<Option<Role>>)
    requires !exists k: nat :: IsBase(defs, k)
    ensures forall j: nat :: j < |defs| ==> !Describes(defs[j])
  {
    if j: nat :| j < |defs| && Describes(defs[j]) {
      var k := LeastDescribed(defs, j);
      assert false;
    }
  }

  lemma {:induction false} LeastDescribed(defs: seq<Option<Role>>, j: nat) returns (k: nat)
    requires j < |defs| && Describes(defs[j])
    ensures IsBase(defs, k)
  {
    if i: nat :| i < j && Describes(defs[i]) {
      k := LeastDescribed(defs, i);
    } else {
      k := j;
    }
  }

  /**
   The precedence rule for merging any list of definitions, lowest first. A role is loaded if and
   only if some layer's own definition of it has a description. With `k` the lowest such layer,
   every field comes from the highest layer at or above `k` that sets it; definitions below `k`
   contribute nothing.
   */
  lemma {:induction false} PrecedenceRule(maps: seq<map<string, Role>>, n: string)
    ensures var defs := Definitions(maps, n);
            && (n in MergeAll(maps) <==> exists i: nat :: i < |maps| && Describes(defs[i]))
            && (forall k: nat :: IsBase(defs, k) ==> n in MergeAll(maps) && Resolves(defs[k..], MergeAll(maps)[n]))
  {
    var defs := Definitions(maps, n);
    RuleForAll(maps, n);
    if i: nat :| i < |maps| && Describes(defs[i]) {
      var k := LeastDescribed(defs, i);
    }
  }

  /** The same for every layered load. */
  lemma {:induction false} LayeredPrecedence(host: Host, layers: seq<Layer>, n: string) returns (defs: seq<Option<Role>>)
    ensures |defs| == |layers|
    ensures forall i :: 0 <= i < |layers| ==>
              var own := LayerRoles(host, layers[i]); defs[i] == if n in own then Some(own[n]) else None
    ensures && (n in Loaded(host, layers) <==> exists i: nat :: i < |layers| && Describes(defs[i]))
            && (forall k: nat :: IsBase(defs, k) ==> n in Loaded(host, layers) && Resolves(defs[k..], Loaded(host, layers)[n]))
  {
    defs := Definitions(LayerMaps(host, layers), n);
    PrecedenceRule(LayerMaps(host, layers), n);
  }

  lemma {:induction false} RuleForAll(maps: seq<map<string, Role>>, n: string)
    ensures RuleHolds(MergeAll(maps), Definitions(maps, n), n)
  {
    if maps != [] {
      var k := |maps| - 1;
      RuleForAll(maps[..k], n);
      RuleStep(MergeAll(maps[..k]), maps[k], Definitions(maps[..k], n), n);
      assert Definitions(maps, n) == Definitions(maps[..k], n) + [Lookup(maps[k], n)];
    } else {
      assert forall k: nat :: !IsBase(Definitions(maps, n), k);
    }
  }

  // ----- Warnings are accounted for exactly -----

  /** The definition at `i` is not kept: it cannot be read, or an earlier one has its name. */
  ghost predicate NotKept(results: seq<Read>, i: nat) {
    i < |results| && (results[i].Success? ==> !FirstRead(results, results[i].value.name, i))
  }

  /** The definition is not kept, for this reason. */
  ghost predicate Rejected(results: seq<Read>, dir: Option<Path>, i: nat, e: RoleError) {
    && NotKept(results, i)
    && e == match results[i]
         case Failure(error) => error
         case Success(d) => if dir.None? then DuplicateInLayer(d.name) else DuplicateDiscovered(d.name, dir.value)
  }

  /** One warning for each definition not kept, in the order of the definitions. */
  ghost predicate ReportedAt(results: seq<Read>, dir: Option<Path>, w: seq<RoleError>, at: seq<nat>) {
    && |at| == |w|
    && (forall j, k :: 0 <= j < k < |at| ==> at[j] < at[k])
    && (forall j :: 0 <= j < |at| ==> Rejected(results, dir, at[j], w[j]))
    && (forall i: nat :: NotKept(results, i) ==> i in at)
  }

  ghost predicate Reported(results: seq<Read>, dir: Option<Path>, w: seq<RoleError>) {
    exists at :: ReportedAt(results, dir, w, at)
  }

  lemma RejectedBefore(before: seq<Read>, read: Read, dir: Option<Path>, i: nat, e: RoleError)
    requires i < |before|
    ensures NotKept(before + [read], i) <==> NotKept(before, i)
    ensures Rejected(before + [read], dir, i, e) <==> Rejected(before, dir, i, e)
  {
    var all := before + [read];
    assert all[..|before|] == before && all[i] == before[i];
    if before[i].Success? { FirstReadPrefix(all, |before|, before[i].value.name, i); }
  }

  lemma RejectedLast(before: seq<Read>, read: Read, dir: Option<Path>)
    ensures var all, c := before + [read], Complaint(read, Kept(before), dir);
            && (NotKept(all, |before|) <==> c != [])
            && (c != [] ==> |c| == 1 && Rejected(all, dir, |before|, c[0]))
  {
    var all := before + [read];
    if read.Success? {
      KeptIsFirst(before, read.value.name);
      assert forall j: nat :: j < |before| ==> all[j] == before[j];
    }
  }

  lemma ReportedStays(before: seq<Read>, read: Read, dir: Option<Path>, w: seq<RoleError>, at: seq<nat>)
    requires ReportedAt(before, dir, w, at)
    ensures forall j :: 0 <= j < |at| ==> at[j] < |before| && Rejected(before + [read], dir, at[j], w[j])
    ensures forall i: nat :: i < |before| && NotKept(before + [read], i) ==> i in at
  {
    forall j | 0 <= j < |at| ensures at[j] < |before| && Rejected(before + [read], dir, at[j], w[j]) {
      RejectedBefore(before, read, dir, at[j], w[j]);
    }
    forall i: nat | i < |before| && NotKept(before + [read], i) ensures i in at {
      RejectedBefore(before, read, dir, i, DuplicateInLayer(""));
    }
  }

  lemma ReportedMore(results: seq<Read>, dir: Option<Path>, w: seq<RoleError>, at: seq<nat>, c: seq<RoleError>, k: nat)
    requires k == |results| - 1 && |at| == |w| && |c| <= 1
    requires forall i, j :: 0 <= i < j < |at| ==> at[i] < at[j]
    requires forall j :: 0 <= j < |at| ==> at[j] < k && Rejected(results, dir, at[j], w[j])
    requires forall i: nat :: i < k && NotKept(results, i) ==> i in at
    requires NotKept(results, k) <==> c != []
    requires c != [] ==> Rejected(results, dir, k, c[0])
    ensures ReportedAt(results, dir, w + c, if c == [] then at else at + [k])
  {
    if c == [] {
      assert w + c == w;
    } else {
      var now, all := at + [k], w + c;
      forall j | 0 <= j < |now| ensures Rejected(results, dir, now[j], all[j]) {
        if j == |at| { assert now[j] == k && all[j] == c[0]; }
      }
      forall i: nat | NotKept(results, i) ensures i in now {
        if i == k { assert now[|at|] == i; }
      }
    }
  }

  lemma ReportedSnoc(before: seq<Read>, read: Read, dir: Option<Path>, w: seq<RoleError>, at: seq<nat>)
    requires ReportedAt(before, dir, w, at)
    ensures var c := Complaint(read, Kept(before), dir);
            ReportedAt(before + [read], dir, w + c, if c == [] then at else at + [|before|])
  {
    RejectedLast(before, read, dir);
    ReportedStays(before, read, dir, w, at);
    ReportedMore(before + [read], dir, w, at, Complaint(read, Kept(before), dir), |before|);
  }

  /** The warnings of a list of definitions, each with its place. */
  lemma {:induction false} ComplaintsInOrder(results: seq<Read>, dir: Option<Path>) returns (at: seq<nat>)
    ensures ReportedAt(results, dir, Complaints(results, dir), at)
  {
    if results == [] {
      at := [];
    } else {
      var k := |results| - 1;
      var before, read := results[..k], results[k];
      assert results == before + [read];
      at := ComplaintsInOrder(before, dir);
      ReportedSnoc(before, read, dir, Complaints(before, dir), at);
      at := if Complaint(read, Kept(before), dir) == [] then at else at + [k];
    }
  }

  /** So the warnings are exactly the reasons of the definitions not kept. */
  lemma {:induction false} ComplaintsAre(results: seq<Read>, dir: Option<Path>, e: RoleError)
    ensures e in Complaints(results, dir) <==> exists i: nat :: Rejected(results, dir, i, e)
  {
    var at := ComplaintsInOrder(results, dir);
    if i: nat :| Rejected(results, dir, i, e) {
      var j :| 0 <= j < |at| && at[j] == i;
      assert Rejected(results, dir, i, Complaints(results, dir)[j]);
    }
    if e in Complaints(results, dir) {
      var j :| 0 <= j < |at| && Complaints(results, dir)[j] == e;
      assert Rejected(results, dir, at[j], e);
    }
  }

  /** A warning for each of the names, in ascending order. */
  ghost predicate ReportedNames(names: set<string>, w: seq<RoleError>, warning: string -> RoleError) {
    exists list :: ListsNames(names, list) && w == seq(|list|, i requires 0 <= i < |list| => warning(list[i]))
  }

  ghost predicate ListsNames(names: set<string>, list: seq<string>) {
    StrictlySorted(StringLeq, list) && forall n :: n in list <==> n in names
  }

  lemma {:induction false} FilterNames(names: seq<string>, keep: set<string>) returns (list: seq<string>)
    requires StrictlySorted(StringLeq, names)
    ensures StrictlySorted(StringLeq, list) && forall n :: n in list <==> n in names && n in keep
    ensures ClashWarnings(names, keep) == seq(|list|, i requires 0 <= i < |list| => DuplicateInLayer(list[i]))
  {
    if names == [] {
      list := [];
    } else {
      var k := |names| - 1;
      assert names == names[..k] + [names[k]];
      list := FilterNames(names[..k], keep);
      forall j | 0 <= j < |list| ensures StringLeq(list[j], names[k]) && list[j] != names[k] {
        assert list[j] in names[..k];
      }
      list := if names[k] in keep then list + [names[k]] else list;
    }
  }

  lemma {:induction false} OtherNames(names: seq<string>, leave: set<string>) returns (list: seq<string>)
    requires StrictlySorted(StringLeq, names)
    ensures StrictlySorted(StringLeq, list) && forall n :: n in list <==> n in names && n !in leave
    ensures MergeWarnings(names, leave) == seq(|list|, i requires 0 <= i < |list| => MissingDescription(list[i]))
  {
    if names == [] {
      list := [];
    } else {
      var k := |names| - 1;
      assert names == names[..k] + [names[k]];
      list := OtherNames(names[..k], leave);
      forall j | 0 <= j < |list| ensures StringLeq(list[j], names[k]) && list[j] != names[k] {
        assert list[j] in names[..k];
      }
      list := if names[k] in leave then list else list + [names[k]];
    }
  }

  lemma ClashesReported(declared: set<string>, found: set<string>)
    ensures ReportedNames(found * declared, ClashWarnings(SortedKeys(found), declared), n => DuplicateInLayer(n))
  {
    SortedKeysSorted(found);
    var list := FilterNames(SortedKeys(found), declared);
    assert ListsNames(found * declared, list);
  }

  /** The names a layer defines without a description, beyond those described below it. */
  function Undescribed(roles: map<string, Role>, layer: map<string, Role>): set<string> {
    set n | n in layer && layer[n].description.None? && n !in roles
  }

  lemma GapsReported(roles: map<string, Role>, layer: map<string, Role>)
    requires AllDescribed(roles)
    ensures ReportedNames(Undescribed(roles, layer), MergeWarnings(SortedKeys(layer.Keys), Entering(roles, layer)),
                          n => MissingDescription(n))
  {
    SortedKeysSorted(layer.Keys);
    UndescribedAre(roles, layer);
    var list := OtherNames(SortedKeys(layer.Keys), Entering(roles, layer));
    assert ListsNames(Undescribed(roles, layer), list);
  }

  lemma UndescribedAre(roles: map<string, Role>, layer: map<string, Role>)
    requires AllDescribed(roles)
    ensures Undescribed(roles, layer) == layer.Keys - Entering(roles, layer)
  {
    forall n | n in layer ensures MergedRole(roles, layer, n).description.None? <==> layer[n].description.None? && n !in roles {}
  }

  lemma LoadedDescribed(host: Host, layers: seq<Layer>)
    ensures AllDescribed(Loaded(host, layers))
  {
    forall n | n in Loaded(host, layers) ensures Loaded(host, layers)[n].description.Some? {
      RuleForAll(LayerMaps(host, layers), n);
    }
  }

  /**
   The warnings of one layer on top of the layers below it, part by part and in order: a malformed
   table; declared definitions not kept; role files not kept; names both declared and discovered;
   names left without a description.
   */
  lemma {:induction false} LayerWarningsAre(host: Host, below: seq<Layer>, layer: Layer)
    returns (table: seq<RoleError>, declared: seq<RoleError>, files: seq<RoleError>, clashes: seq<RoleError>, gaps: seq<RoleError>)
    ensures LayerWarnings(host, Loaded(host, below), layer) == table + declared + files + clashes + gaps
    ensures table == match layer.agents case Malformed(message) => [BadAgentsTable(message)] case _ => []
    ensures Reported(LayerDeclared(host, layer), None, declared)
    ensures layer.folder.None? ==> files == [] && clashes == []
    ensures layer.folder.Some? ==>
            && Reported(LayerDiscovered(host, layer), Some(layer.folder.value + ["agents"]), files)
            && ReportedNames(Kept(LayerDiscovered(host, layer)).Keys * Kept(LayerDeclared(host, layer)).Keys, clashes,
                             n => DuplicateInLayer(n))
    ensures ReportedNames(Undescribed(Loaded(host, below), LayerRoles(host, layer)), gaps, n => MissingDescription(n))
  {
    var roles, own := Loaded(host, below), LayerRoles(host, layer);
    table, declared := TableWarnings(layer), Complaints(LayerDeclared(host, layer), None);
    var at := ComplaintsInOrder(LayerDeclared(host, layer), None);
    files, clashes := [], [];
    if layer.folder.Some? {
      var dir := Some(AgentsDir(layer.folder.value));
      files := Complaints(LayerDiscovered(host, layer), dir);
      at := ComplaintsInOrder(LayerDiscovered(host, layer), dir);
      clashes := ClashWarnings(SortedKeys(Kept(LayerDiscovered(host, layer)).Keys), Kept(LayerDeclared(host, layer)).Keys);
      ClashesReported(Kept(LayerDeclared(host, layer)).Keys, Kept(LayerDiscovered(host, layer)).Keys);
    }
    gaps := MergeWarnings(SortedKeys(own.Keys), Entering(roles, own));
    LoadedDescribed(host, below);
    GapsReported(roles, own);
    Assoc(table + declared, files, clashes);
  }

  lemma FirstReadPrefix(results: seq<Read>, k: nat, n: string, i: nat)
    requires i < k <= |results|
    ensures FirstRead(results, n, i) <==> FirstRead(results[..k], n, i)
  {
    assert forall j :: 0 <= j <= i ==> results[..k][j] == results[j];
  }

  /** A layer's definition that stays without a description is reported by name. */
  lemma {:induction false} MergeWarningsAre(names: seq<string>, entering: set<string>, e: RoleError)
    ensures e in MergeWarnings(names, entering) <==> exists n :: n in names && n !in entering && e == MissingDescription(n)
  {
    if names != [] {
      var k := |names| - 1;
      assert names == names[..k] + [names[k]];
      MergeWarningsAre(names[..k], entering, e);
    }
  }

  lemma {:induction false} ComplaintsCount(results: seq<Read>, dir: Option<Path>)
    ensures |Complaints(results, dir)| + |Kept(results)| == |results|
  {
    if results != [] {
      ComplaintsCount(results[..|results|-1], dir);
    }
  }

  /** How many of the names are in the set. */
  function Hits(names: seq<string>, s: set<string>): nat {
    if names == [] then 0
    else Hits(names[..|names|-1], s) + (if names[|names|-1] in s then 1 else 0)
  }

  lemma {:induction false} HitsAre(names: seq<string>, s: set<string>) returns (hit: set<string>)
    requires Distinct(names)
    ensures Hits(names, s) == |hit| && forall n :: n in hit <==> n in names && n in s
  {
    if names == [] {
      hit := {};
    } else {
      var k := |names| - 1;
      var before := HitsAre(names[..k], s);
      assert names == names[..k] + [names[k]];
      assert names[k] !in before;
      hit := if names[k] in s then before + {names[k]} else before;
    }
  }

  lemma {:induction false} ClashCount(names: seq<string>, declared: set<string>)
    ensures |ClashWarnings(names, declared)| == Hits(names, declared)
  {
    if names != [] { ClashCount(names[..|names|-1], declared); }
  }

  lemma {:induction false} MergeCount(names: seq<string>, entering: set<string>)
    ensures |MergeWarnings(names, entering)| + Hits(names, entering) == |names|
  {
    if names != [] { MergeCount(names[..|names|-1], entering); }
  }

  /** Hits among the keys of a map. */
  lemma KeyHits(keys: set<string>, s: set<string>)
    ensures Hits(SortedKeys(keys), s) == |keys * s|
  {
    var hit := HitsAre(SortedKeys(keys), s);
    assert hit == keys * s;
  }

  /** Definitions and malformed tables of a layer: everything that can cause a warning. */
  ghost function Attempts(host: Host, layer: Layer): nat {
    (if layer.agents.Malformed? then 1 else 0) + |DeclaredEntries(layer)| + |LayerUnclaimed(host, layer)|
  }

  /** How often a layer's definition enters the result. */
  ghost function Merges(host: Host, layers: seq<Layer>): nat {
    if layers == [] then 0
    else
      var k := |layers| - 1;
      Merges(host, layers[..k]) + |Entering(Loaded(host, layers[..k]), LayerRoles(host, layers[k]))|
  }

  ghost function TotalAttempts(host: Host, layers: seq<Layer>): nat {
    if layers == [] then 0 else TotalAttempts(host, layers[..|layers|-1]) + Attempts(host, layers[|layers|-1])
  }

  lemma DiscoveredCount(host: Host, layer: Layer)
    ensures |DiscoveredWarnings(host, layer)| + |LayerRoles(host, layer)| ==
            |LayerUnclaimed(host, layer)| + |Kept(LayerDeclared(host, layer))|
  {
    var declared, discovered := Kept(LayerDeclared(host, layer)), Kept(LayerDiscovered(host, layer));
    if layer.folder.Some? {
      ComplaintsCount(LayerDiscovered(host, layer), Some(AgentsDir(layer.folder.value)));
      ClashCount(SortedKeys(discovered.Keys), declared.Keys);
      KeyHits(discovered.Keys, declared.Keys);
      UnionCount(discovered, declared);
    } else {
      assert LayerDiscovered(host, layer) == [];
      assert LayerRoles(host, layer) == declared;
    }
  }

  lemma UnionCount<V>(a: map<string, V>, b: map<string, V>)
    ensures |a + b| + |a.Keys * b.Keys| == |a| + |b|
  {
    assert (a + b).Keys == a.Keys + b.Keys;
    assert |a + b| == |(a + b).Keys| && |a| == |a.Keys| && |b| == |b.Keys|;
  }

  lemma LayerCount(host: Host, roles: map<string, Role>, layer: Layer)
    ensures |LayerWarnings(host, roles, layer)| + |Entering(roles, LayerRoles(host, layer))| == Attempts(host, layer)
  {
    ComplaintsCount(LayerDeclared(host, layer), None);
    DiscoveredCount(host, layer);
    EnteringCount(roles, LayerRoles(host, layer));
  }

  lemma EnteringCount(roles: map<string, Role>, layer: map<string, Role>)
    ensures |MergeWarnings(SortedKeys(layer.Keys), Entering(roles, layer))| + |Entering(roles, layer)| == |layer|
  {
    var entering := Entering(roles, layer);
    MergeCount(SortedKeys(layer.Keys), entering);
    KeyHits(layer.Keys, entering);
    assert layer.Keys * entering == entering;
    assert |layer| == |layer.Keys|;
  }

  /**
   Conservation over every load that succeeds: every malformed table, declared definition and unclaimed role file either
   enters the result or leaves exactly one warning.
   */
  lemma {:induction false} WarningsAccounted(host: Host, layers: seq<Layer>)
    ensures |Warned(host, layers)| + Merges(host, layers) == TotalAttempts(host, layers)
  {
    if layers != [] {
      var k := |layers| - 1;
      WarningsAccounted(host, layers[..k]);
      assert layers[..k+1] == layers;
      LayerCount(host, Loaded(host, layers[..k]), layers[k]);
    }
  }

  /** The same for a load that stops at layer `k`: its declared roles are read but not merged. */
  lemma {:induction false} StoppedWarningsAccounted(host: Host, layers: seq<Layer>, k: nat,
                                                    e: RoleError, log: seq<RoleError>, log': seq<RoleError>)
    requires StopsAt(host, layers, k, e, log, log')
    ensures |log'| - |log| + Merges(host, layers[..k]) + |Kept(LayerDeclared(host, layers[k]))| ==
            TotalAttempts(host, layers[..k]) + |TableWarnings(layers[k])| + |DeclaredEntries(layers[k])|
  {
    WarningsAccounted(host, layers[..k]);
    ComplaintsCount(LayerDeclared(host, layers[k]), None);
  }

  // ----- The strict loader agrees with a layered load without warnings -----

  predicate AllDescribed(m: map<string, Role>) {
    forall n :: n in m ==> m[n].description.Some?
  }

  ghost predicate AllTaken(results: seq<Read>) {
    Complaints(results, None) == [] && AllDescribed(Kept(results))
  }

  /** Whether one more definition leaves everything taken. */
  lemma TakenSnoc(before: seq<Read>, read: Read)
    ensures AllTaken(before + [read]) <==>
            AllTaken(before) && read.Success? && read.value.name !in Kept(before) && read.value.role.description.Some?
  {
    ReadsSnoc(before, read, None);
    if read.Success? && read.value.name !in Kept(before) {
      KeepDescribed(read, Kept(before));
    }
  }

  lemma DeclaredReadsSnoc(host: Host, entries: seq<Declaration>, k: nat)
    requires k == |entries| - 1
    ensures DeclaredReads(host, entries) == DeclaredReads(host, entries[..k]) + [ReadDeclared(host, entries[k])]
  {
  }

  /** The strict loader succeeds exactly when every entry is read, kept and described. */
  lemma {:induction false} StrictIs(host: Host, entries: seq<Declaration>)
    ensures var results := DeclaredReads(host, entries);
            && (Strict(host, entries).Success? <==> AllTaken(results))
            && (Strict(host, entries).Success? ==> Strict(host, entries).value == Kept(results))
  {
    if entries != [] {
      var k := |entries| - 1;
      var before, read := DeclaredReads(host, entries[..k]), ReadDeclared(host, entries[k]);
      StrictIs(host, entries[..k]);
      DeclaredReadsSnoc(host, entries, k);
      TakenSnoc(before, read);
      ReadsSnoc(before, read, None);
    }
  }

  /** The strict loader stops at the first entry it cannot take and returns that entry's error. */
  lemma {:induction false} StrictStopsAtFirst(host: Host, entries: seq<Declaration>) returns (k: nat)
    requires Strict(host, entries).Failure?
    ensures k < |entries| && Strict(host, entries[..k]).Success?
    ensures Strict(host, entries).error == match ReadDeclared(host, entries[k])
              case Failure(e) => e
              case Success(d) =>
                if d.role.description.None? then MissingDescription(d.name) else DuplicateInConfig(d.name)
  {
    k := |entries| - 1;
    if Strict(host, entries[..k]).Failure? {
      var n := k;
      k := StrictStopsAtFirst(host, entries[..n]);
      assert entries[..n][..k] == entries[..k];
    }
  }

  lemma KeepDescribed(read: Read, kept: map<string, Role>)
    requires read.Success? && read.value.name !in kept
    ensures AllDescribed(Keep(read, kept)) <==> AllDescribed(kept) && read.value.role.description.Some?
  {
    var after := Keep(read, kept);
    assert forall n :: n in kept ==> n in after && after[n] == kept[n];
    assert after[read.value.name] == read.value.role;
  }

  lemma {:induction false} NoMergeWarnings(names: seq<string>, entering: set<string>)
    ensures MergeWarnings(names, entering) == [] <==> forall n :: n in names ==> n in entering
  {
    if names != [] {
      var k := |names| - 1;
      assert names == names[..k] + [names[k]];
      NoMergeWarnings(names[..k], entering);
    }
  }

  lemma EnteringNothing(own: map<string, Role>)
    ensures AllDescribed(own) <==> Entering(map[], own) == own.Keys
    ensures AllDescribed(own) ==> MergeLayer(map[], own) == own
  {
    forall n | n in own ensures MergedRole(map[], own, n) == own[n] {}
  }

  lemma MergeIntoNothing(own: map<string, Role>)
    ensures MergeWarnings(SortedKeys(own.Keys), Entering(map[], own)) == [] <==> AllDescribed(own)
    ensures AllDescribed(own) ==> MergeLayer(map[], own) == own
  {
    NoMergeWarnings(SortedKeys(own.Keys), Entering(map[], own));
    EnteringNothing(own);
    assert Entering(map[], own) <= own.Keys;
    assert own.Keys <= Entering(map[], own) <==> own.Keys == Entering(map[], own);
  }

  lemma SingleLayer(host: Host, layer: Layer)
    ensures Loaded(host, [layer]) == MergeLayer(map[], LayerRoles(host, layer))
    ensures Warned(host, [layer]) == LayerWarnings(host, map[], layer)
  {
    assert [layer][..0] == [] && [layer][..1] == [layer];
    LoadedSnoc(host, [layer], 0);
  }

  /** A layer with a table and no role files. */
  lemma BareTable(host: Host, entries: seq<Declaration>, folder: Option<Path>)
    requires FoundFiles(host, Layer(Declares(entries), folder)) == []
    ensures LayerRoles(host, Layer(Declares(entries), folder)) == Kept(DeclaredReads(host, entries))
    ensures DeclaredWarnings(host, Layer(Declares(entries), folder)) == Complaints(DeclaredReads(host, entries), None)
    ensures DiscoveredWarnings(host, Layer(Declares(entries), folder)) == []
  {
    var layer := Layer(Declares(entries), folder);
    assert LayerUnclaimed(host, layer) == [];
    assert LayerDiscovered(host, layer) == [];
    assert Kept(LayerDiscovered(host, layer)).Keys == {};
  }

  /**
   With the same table in one layer and no role files, the layered load returns `m` without a
   warning if and only if the strict loader succeeds with `m` and the layer's search does not fail.
   */
  lemma {:induction false} StrictMatchesLayered(host: Host, entries: seq<Declaration>, folder: Option<Path>, m: map<string, Role>)
    requires SearchFails(host, Layer(Declares(entries), folder)) || FoundFiles(host, Layer(Declares(entries), folder)) == []
    ensures Returns(host, [Layer(Declares(entries), folder)], m, []) <==>
            Strict(host, entries) == Success(m) && !SearchFails(host, Layer(Declares(entries), folder))
  {
    var layer := Layer(Declares(entries), folder);
    assert NoneFail(host, [layer], 1) <==> !SearchFails(host, layer) by { assert [layer][0] == layer; }
    if !SearchFails(host, layer) {
      StrictIs(host, entries);
      SingleLayer(host, layer);
      BareTable(host, entries, folder);
      MergeIntoNothing(Kept(DeclaredReads(host, entries)));
    }
  }

  // ----- Every loaded role is well-formed -----

  ghost predicate AllValid(roles: map<string, Role>) {
    forall n :: n in roles ==> ValidRole(roles[n])
  }

  lemma {:induction false} KeptValid(results: seq<Read>)
    requires forall i :: 0 <= i < |results| && results[i].Success? ==> ValidRole(results[i].value.role)
    ensures AllValid(Kept(results))
  {
    if results != [] {
      KeptValid(results[..|results|-1]);
    }
  }

  lemma LayerValid(host: Host, layer: Layer)
    ensures AllValid(Kept(LayerDeclared(host, layer))) && AllValid(LayerRoles(host, layer))
  {
    forall i | 0 <= i < |LayerDeclared(host, layer)| && LayerDeclared(host, layer)[i].Success?
      ensures ValidRole(LayerDeclared(host, layer)[i].value.role)
    {
      DeclaredValid(host, DeclaredEntries(layer)[i]);
    }
    forall i | 0 <= i < |LayerDiscovered(host, layer)| && LayerDiscovered(host, layer)[i].Success?
      ensures ValidRole(LayerDiscovered(host, layer)[i].value.role)
    {
      DiscoveredValid(host, LayerUnclaimed(host, layer)[i]);
    }
    KeptValid(LayerDeclared(host, layer));
    KeptValid(LayerDiscovered(host, layer));
  }

  /** Every role of a layered load has a trimmed, non-blank description and valid nicknames. */
  lemma {:induction false} LoadedValid(host: Host, layers: seq<Layer>, n: string)
    ensures n in Loaded(host, layers) ==>
            ValidRole(Loaded(host, layers)[n]) && Loaded(host, layers)[n].description.Some?
  {
    RuleForAll(LayerMaps(host, layers), n);
    forall i | 0 <= i < |layers| ensures AllValid(LayerMaps(host, layers)[i]) { LayerValid(host, layers[i]); }
    MergeAllValid(LayerMaps(host, layers));
  }

  lemma {:induction false} MergeAllValid(maps: seq<map<string, Role>>)
    requires forall i :: 0 <= i < |maps| ==> AllValid(maps[i])
    ensures AllValid(MergeAll(maps))
  {
    if maps != [] {
      var k := |maps| - 1;
      MergeAllValid(maps[..k]);
      forall n | n in MergeAll(maps) ensures ValidRole(MergeAll(maps)[n]) {
        MergeAt(MergeAll(maps[..k]), maps[k], n);
      }
    }
  }

  /** The same for the strict loader. */
  lemma {:induction false} StrictValid(host: Host, entries: seq<Declaration>, n: string)
    requires Strict(host, entries).Success? && n in Strict(host, entries).value
    ensures ValidRole(Strict(host, entries).value[n]) && Strict(host, entries).value[n].description.Some?
  {
    StrictIs(host, entries);
    var layer := Layer(Declares(entries), None);
    LayerValid(host, layer);
    assert LayerDeclared(host, layer) == DeclaredReads(host, entries);
  }

  // ----- Directory listing order does not matter -----

  ghost predicate SameButListingOrder(a: Host, b: Host) {
    && a.isFile == b.isFile && a.readText == b.readText && a.toml == b.toml
    && forall p :: SameDir(a.directory(p), b.directory(p))
  }

  lemma SameDefinitions(a: Host, b: Host, layer: Layer)
    requires SameButListingOrder(a, b)
    ensures SearchFails(a, layer) <==> SearchFails(b, layer)
    ensures LayerDeclared(a, layer) == LayerDeclared(b, layer)
    ensures LayerDiscovered(a, layer) == LayerDiscovered(b, layer)
  {
    SameReads(a, b, DeclaredEntries(layer), LayerUnclaimed(a, layer));
    SameSearch(a, b, layer);
  }

  lemma SameSearch(a: Host, b: Host, layer: Layer)
    requires SameButListingOrder(a, b)
    ensures SearchFails(a, layer) <==> SearchFails(b, layer)
    ensures FoundFiles(a, layer) == FoundFiles(b, layer)
  {
    if layer.folder.Some? {
      var dir := AgentsDir(layer.folder.value);
      ListingOrderIrrelevant(dir, a.directory(dir), b.directory(dir));
    }
  }

  lemma SameReads(a: Host, b: Host, entries: seq<Declaration>, files: seq<Path>)
    requires SameButListingOrder(a, b)
    ensures DeclaredReads(a, entries) == DeclaredReads(b, entries)
    ensures DiscoveredReads(a, files) == DiscoveredReads(b, files)
  {
    forall i | 0 <= i < |entries| ensures ReadDeclared(a, entries[i]) == ReadDeclared(b, entries[i]) {}
    forall i | 0 <= i < |files| ensures ReadDiscovered(a, files[i]) == ReadDiscovered(b, files[i]) {}
  }

  /** Two file systems that differ only in listing order give the same roles and warnings. */
  lemma {:induction false} ListingOrderIndependent(a: Host, b: Host, layers: seq<Layer>)
    requires SameButListingOrder(a, b)
    ensures Loaded(a, layers) == Loaded(b, layers)
    ensures Warned(a, layers) == Warned(b, layers)
    ensures forall k :: 0 <= k < |layers| ==> (SearchFails(a, layers[k]) <==> SearchFails(b, layers[k]))
  {
    SameLayerMaps(a, b, layers);
    SameWarned(a, b, layers);
    forall k | 0 <= k < |layers| ensures SearchFails(a, layers[k]) <==> SearchFails(b, layers[k]) {
      SameDefinitions(a, b, layers[k]);
    }
  }

  lemma {:induction false} SameWarned(a: Host, b: Host, layers: seq<Layer>)
    requires SameButListingOrder(a, b)
    ensures Warned(a, layers) == Warned(b, layers)
  {
    if layers != [] {
      var k := |layers| - 1;
      SameWarned(a, b, layers[..k]);
      SameLayerMaps(a, b, layers[..k]);
      SameLayerWarnings(a, b, Loaded(a, layers[..k]), layers[k]);
    }
  }

  lemma SameLayerWarnings(a: Host, b: Host, roles: map<string, Role>, layer: Layer)
    requires SameButListingOrder(a, b)
    ensures LayerWarnings(a, roles, layer) == LayerWarnings(b, roles, layer)
  {
    SameDefinitions(a, b, layer);
  }

  lemma SameLayerMaps(a: Host, b: Host, layers: seq<Layer>)
    requires SameButListingOrder(a, b)
    ensures LayerMaps(a, layers) == LayerMaps(b, layers)
  {
    forall i | 0 <= i < |layers| ensures LayerMaps(a, layers)[i] == LayerMaps(b, layers)[i] {
      SameDefinitions(a, b, layers[i]);
    }
  }
}
