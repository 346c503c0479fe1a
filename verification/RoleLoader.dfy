/** Loading agent roles from configuration layers, lowest precedence first. */
module RoleLoader {
  import opened Wrappers
  import opened Orders
  import opened Discovery
  import opened RoleConfig

  datatype Role = Role(description: Option<string>, configFile: Option<Path>, nicknames: Option<seq<string>>)

  /** A role as declared in an `agents` table. */
  datatype RoleToml = RoleToml(description: Option<string>, configFile: Option<Path>, nicknames: Option<seq<string>>)

  datatype Declaration = Declaration(name: string, role: RoleToml)

  /** The `agents` table of a layer: absent, not deserialisable, or its roles in key order. */
  datatype AgentsTable = Absent | Malformed(message: string) | Declares(entries: seq<Declaration>)

  datatype Layer = Layer(agents: AgentsTable, folder: Option<Path>)

  /** The file system and the TOML deserialiser, as fixed functions. */
  datatype Host = Host(
    isFile: Path -> Result<bool, IoError>,
    readText: Path -> Result<string, IoError>,
    toml: (string, Path) -> Result<RawRoleFile, string>,
    directory: Path -> Dir)

  datatype Named = Named(name: string, role: Role)

  type Read = Result<Named, RoleError>

  // ----- Reading one definition -----

  function Parent(path: Path): Path {
    if path == [] then path else path[..|path|-1]
  }

  function ReadRoleFile(host: Host, path: Path, hint: Option<string>): Result<ResolvedRoleFile, RoleError> {
    match host.readText(path)
    case Failure(io) => Failure(ReadFailed(io))
    case Success(text) => ParseRoleFile(path, host.toml(text, Parent(path)), hint)
  }

  function CheckConfigFile(host: Host, name: string, file: Option<Path>): Result<(), RoleError> {
    if file.None? then Success(())
    else match host.isFile(file.value)
      case Failure(io) => Failure(ConfigFileAbsent(name, file.value, io))
      case Success(isFile) => if isFile then Success(()) else Failure(ConfigFileNotFile(name, file.value))
  }

  function RoleFromToml(host: Host, name: string, t: RoleToml): Result<Role, RoleError> {
    var _ :- CheckConfigFile(host, name, t.configFile);
    var description :- NormalizeDescription(OfDeclared(name), t.description);
    var nicknames :- NormalizedNicknames(OfDeclared(name), t.nicknames);
    Success(Role(description, t.configFile, nicknames))
  }

  /** A declared role, completed from its config file, whose fields and name take precedence. */
  function ReadDeclared(host: Host, d: Declaration): Read {
    var role :- RoleFromToml(host, d.name, d.role);
    if role.configFile.None? then Success(Named(d.name, role))
    else
      var file :- ReadRoleFile(host, role.configFile.value, Some(d.name));
      Success(Named(file.roleName, Role(
        file.description.Or(role.description), role.configFile, file.nicknames.Or(role.nicknames))))
  }

  /** A discovered role file, which must name its role itself. */
  function ReadDiscovered(host: Host, path: Path): Read {
    var file :- ReadRoleFile(host, path, None);
    Success(Named(file.roleName, Role(file.description, Some(path), file.nicknames)))
  }

  ghost predicate ValidRole(role: Role) {
    ValidDescription(role.description) && ValidNicknames(role.nicknames)
  }

  lemma DeclaredValid(host: Host, d: Declaration)
    ensures ReadDeclared(host, d).Success? ==> ValidRole(ReadDeclared(host, d).value.role)
  {
    var field := OfDeclared(d.name);
    if NormalizedNicknames(field, d.role.nicknames).Success? {
      NicknamesIdempotent(field, field, d.role.nicknames);
    }
    if d.role.description.Some? { TrimSplits(d.role.description.value); }
  }

  lemma DiscoveredValid(host: Host, path: Path)
    ensures ReadDiscovered(host, path).Success? ==> ValidRole(ReadDiscovered(host, path).value.role)
  {
  }

  /** The role takes from the fallback the fields it leaves open. */
  function Overlay(role: Role, fallback: Option<Role>): Role {
    if fallback.None? then role
    else Role(role.description.Or(fallback.value.description),
              role.configFile.Or(fallback.value.configFile),
              role.nicknames.Or(fallback.value.nicknames))
  }

  function Lookup<K, V>(m: map<K, V>, k: K): Option<V> {
    if k in m then Some(m[k]) else None
  }

  // ----- What one layer defines -----

  function DeclaredEntries(layer: Layer): seq<Declaration> {
    if layer.agents.Declares? then layer.agents.entries else []
  }

  function DeclaredReads(host: Host, entries: seq<Declaration>): (r: seq<Read>)
    ensures |r| == |entries|
  {
    seq(|entries|, i requires 0 <= i < |entries| => ReadDeclared(host, entries[i]))
  }

  function DiscoveredReads(host: Host, files: seq<Path>): (r: seq<Read>)
    ensures |r| == |files|
  {
    seq(|files|, i requires 0 <= i < |files| => ReadDiscovered(host, files[i]))
  }

  /** The config files of the declared roles that were read, kept or not. */
  ghost function Claimed(results: seq<Read>): set<Path> {
    set i | 0 <= i < |results| && results[i].Success? && results[i].value.role.configFile.Some?
      :: results[i].value.role.configFile.value
  }

  function Unclaimed(files: seq<Path>, claimed: set<Path>): seq<Path> {
    if files == [] then []
    else
      var n := |files| - 1;
      Unclaimed(files[..n], claimed) + (if files[n] in claimed then [] else [files[n]])
  }

  /** Keeps the first read definition of each name. */
  function Kept(results: seq<Read>): map<string, Role> {
    if results == [] then map[]
    else
      Keep(results[|results|-1], Kept(results[..|results|-1]))
  }

  function Keep(read: Read, kept: map<string, Role>): map<string, Role> {
    if read.Success? && read.value.name !in kept then kept[read.value.name := read.value.role] else kept
  }

  function DuplicateError(dir: Option<Path>, name: string): RoleError {
    if dir.None? then DuplicateInLayer(name) else DuplicateDiscovered(name, dir.value)
  }

  /** One warning for each definition that is not kept, in order. */
  function Complaints(results: seq<Read>, dir: Option<Path>): seq<RoleError> {
    if results == [] then []
    else
      var n := |results| - 1;
      Complaints(results[..n], dir) + Complaint(results[n], Kept(results[..n]), dir)
  }

  function Complaint(read: Read, kept: map<string, Role>, dir: Option<Path>): seq<RoleError> {
    match read
    case Failure(error) => [error]
    case Success(d) => if d.name in kept then [DuplicateError(dir, d.name)] else []
  }

  function AgentsDir(folder: Path): Path {
    folder + ["agents"]
  }

  /** The search below the layer's `agents` directory fails. */
  ghost predicate SearchFails(host: Host, layer: Layer) {
    layer.folder.Some? && Broken(host.directory(AgentsDir(layer.folder.value)))
  }

  /** The error of the layer's failing search. */
  ghost predicate IsSearchError(host: Host, layer: Layer, e: RoleError) {
    layer.folder.Some? && e.ReadFailed? && FirstError(host.directory(AgentsDir(layer.folder.value))) == Some(e.io)
  }

  ghost function FoundFiles(host: Host, layer: Layer): seq<Path> {
    if layer.folder.None? then []
    else Collected(AgentsDir(layer.folder.value), host.directory(AgentsDir(layer.folder.value)))
  }

  ghost function LayerDeclared(host: Host, layer: Layer): seq<Read> {
    DeclaredReads(host, DeclaredEntries(layer))
  }

  ghost function LayerUnclaimed(host: Host, layer: Layer): seq<Path> {
    Unclaimed(FoundFiles(host, layer), Claimed(LayerDeclared(host, layer)))
  }

  ghost function LayerDiscovered(host: Host, layer: Layer): seq<Read> {
    DiscoveredReads(host, LayerUnclaimed(host, layer))
  }

  /** The definitions a layer contributes; declared ones win over discovered ones. */
  ghost function LayerRoles(host: Host, layer: Layer): map<string, Role> {
    Kept(LayerDiscovered(host, layer)) + Kept(LayerDeclared(host, layer))
  }

  // ----- Merging layers -----

  function MergedRole(roles: map<string, Role>, layer: map<string, Role>, name: string): Role
    requires name in layer
  {
    Overlay(layer[name], Lookup(roles, name))
  }

  /** The names of a layer that enter the result. */
  function Entering(roles: map<string, Role>, layer: map<string, Role>): set<string> {
    set n | n in layer && MergedRole(roles, layer, n).description.Some?
  }

  function MergeLayer(roles: map<string, Role>, layer: map<string, Role>): map<string, Role> {
    roles + map n | n in Entering(roles, layer) :: MergedRole(roles, layer, n)
  }

  function MergeAll(maps: seq<map<string, Role>>): map<string, Role> {
    if maps == [] then map[] else MergeLayer(MergeAll(maps[..|maps|-1]), maps[|maps|-1])
  }

  /** What each layer defines on its own. */
  ghost function LayerMaps(host: Host, layers: seq<Layer>): (maps: seq<map<string, Role>>)
    ensures |maps| == |layers|
  {
    seq(|layers|, i requires 0 <= i < |layers| => LayerRoles(host, layers[i]))
  }

  ghost function Loaded(host: Host, layers: seq<Layer>): map<string, Role> {
    MergeAll(LayerMaps(host, layers))
  }

  // ----- Warnings -----

  function TableWarnings(layer: Layer): seq<RoleError> {
    if layer.agents.Malformed? then [BadAgentsTable(layer.agents.message)] else []
  }

  /** A discovered name the layer also declares. */
  function ClashWarnings(names: seq<string>, declared: set<string>): seq<RoleError> {
    if names == [] then []
    else
      var n := |names| - 1;
      ClashWarnings(names[..n], declared) + (if names[n] in declared then [DuplicateInLayer(names[n])] else [])
  }

  /** A name whose merged definition still lacks a description. */
  function MergeWarnings(names: seq<string>, entering: set<string>): seq<RoleError> {
    if names == [] then []
    else
      var n := |names| - 1;
      MergeWarnings(names[..n], entering) + (if names[n] in entering then [] else [MissingDescription(names[n])])
  }

  ghost function DeclaredWarnings(host: Host, layer: Layer): seq<RoleError> {
    TableWarnings(layer) + Complaints(LayerDeclared(host, layer), None)
  }

  ghost function DiscoveredWarnings(host: Host, layer: Layer): seq<RoleError> {
    if layer.folder.None? then []
    else
      Complaints(LayerDiscovered(host, layer), Some(AgentsDir(layer.folder.value)))
      + ClashWarnings(SortedKeys(Kept(LayerDiscovered(host, layer)).Keys), Kept(LayerDeclared(host, layer)).Keys)
  }

  ghost function LayerWarnings(host: Host, roles: map<string, Role>, layer: Layer): seq<RoleError> {
    DeclaredWarnings(host, layer) + DiscoveredWarnings(host, layer)
    + MergeWarnings(SortedKeys(LayerRoles(host, layer).Keys), Entering(roles, LayerRoles(host, layer)))
  }

  ghost function Warned(host: Host, layers: seq<Layer>): seq<RoleError> {
    if layers == [] then []
    else
      var n := |layers| - 1;
      Warned(host, layers[..n]) + LayerWarnings(host, Loaded(host, layers[..n]), layers[n])
  }

  // ----- The strict loader, used when there are no layers -----

  function Strict(host: Host, entries: seq<Declaration>): Result<map<string, Role>, RoleError> {
    if entries == [] then Success(map[])
    else
      var n := |entries| - 1;
      var m :- Strict(host, entries[..n]);
      var d :- ReadDeclared(host, entries[n]);
      if d.role.description.None? then Failure(MissingDescription(d.name))
      else if d.name in m then Failure(DuplicateInConfig(d.name))
      else Success(m[d.name := d.role])
  }

  // ----- The loaders -----
  //
  // The caller's list of startup warnings is handed from method to method: each takes the
  // list so far and returns it with its own warnings appended.

  method LoadWithoutLayers(host: Host, agents: Option<seq<Declaration>>) returns (r: Result<map<string, Role>, RoleError>)
    ensures r == Strict(host, if agents.Some? then agents.value else [])
  {
    var roles: map<string, Role> := map[];
    if agents.Some? {
      var entries := agents.value;
      for i := 0 to |entries|
        invariant Strict(host, entries[..i]) == Success(roles)
      {
        StrictFailsEarly(host, entries, i + 1);
        assert entries[..i+1][..i] == entries[..i];
        var read := ReadDeclared(host, entries[i]);
        if read.Failure? {
          return Failure(read.error);
        }
        var d := read.value;
        if d.role.description.None? {
          return Failure(MissingDescription(d.name));
        }
        if d.name in roles {
          return Failure(DuplicateInConfig(d.name));
        }
        roles := roles[d.name := d.role];
      }
      assert entries[..|entries|] == entries;
    }
    return Success(roles);
  }

  /** A failing prefix decides the strict result. */
  lemma {:induction false} StrictFailsEarly(host: Host, entries: seq<Declaration>, k: nat)
    requires k <= |entries|
    ensures Strict(host, entries[..k]).Failure? ==> Strict(host, entries) == Strict(host, entries[..k])
  {
    var n := |entries|;
    if k == n {
      assert entries[..k] == entries;
    } else {
      StrictFailsEarly(host, entries[..n-1], k);
      assert entries[..n-1][..k] == entries[..k];
    }
  }

  /** Keeps one definition, or says why not. */
  method TakeDefinition(read: Read, kept: map<string, Role>, dir: Option<Path>, log: seq<RoleError>)
    returns (next: map<string, Role>, log': seq<RoleError>)
    ensures next == Keep(read, kept)
    ensures log' == log + Complaint(read, kept, dir)
  {
    next, log' := kept, log;
    match read {
      case Failure(error) =>
        log' := log + [error];
      case Success(d) =>
        if d.name in kept {
          log' := log + [DuplicateError(dir, d.name)];
        } else {
          next := kept[d.name := d.role];
        }
    }
  }

  lemma ReadsSnoc(before: seq<Read>, read: Read, dir: Option<Path>)
    ensures Complaints(before + [read], dir) == Complaints(before, dir) + Complaint(read, Kept(before), dir)
    ensures Kept(before + [read]) == Keep(read, Kept(before))
    ensures Claimed(before + [read]) == Claimed(before) + ClaimOf(read)
  {
    var all := before + [read];
    assert all[..|all|-1] == before;
    assert forall i :: 0 <= i < |before| ==> all[i] == before[i];
    assert all[|before|] == read;
  }

  function ClaimOf(read: Read): set<Path> {
    if read.Success? && read.value.role.configFile.Some? then {read.value.role.configFile.value} else {}
  }

  /** The loop over a layer's declared roles; a file is claimed even if its role is a duplicate. */
  method LoadDeclared(host: Host, entries: seq<Declaration>, log: seq<RoleError>)
    returns (roles: map<string, Role>, claimed: set<Path>, log': seq<RoleError>)
    ensures roles == Kept(DeclaredReads(host, entries)) && claimed == Claimed(DeclaredReads(host, entries))
    ensures forall p :: p in claimed <==> IsClaimed(host, entries, p)
    ensures log' == log + Complaints(DeclaredReads(host, entries), None)
  {
    roles, claimed, log' := map[], {}, log;
    ghost var results: seq<Read> := [];
    for i := 0 to |entries|
      invariant results == DeclaredReads(host, entries[..i])
      invariant roles == Kept(results) && claimed == Claimed(results)
      invariant log' == log + Complaints(results, None)
    {
      var read := ReadDeclared(host, entries[i]);
      ReadsSnoc(results, read, None);
      Assoc(log, Complaints(results, None), Complaint(read, roles, None));
      claimed := claimed + ClaimOf(read);
      roles, log' := TakeDefinition(read, roles, None, log');
      results := results + [read];
    }
    assert entries[..|entries|] == entries;
    ClaimedAre(host, entries);
  }

  /** Some entry names the file as its config file and can be read. */
  ghost predicate IsClaimed(host: Host, entries: seq<Declaration>, p: Path) {
    exists i :: 0 <= i < |entries| && entries[i].role.configFile == Some(p) && ReadDeclared(host, entries[i]).Success?
  }

  lemma ClaimedAre(host: Host, entries: seq<Declaration>)
    ensures forall p :: p in Claimed(DeclaredReads(host, entries)) <==> IsClaimed(host, entries, p)
  {
    forall p ensures p in Claimed(DeclaredReads(host, entries)) <==> IsClaimed(host, entries, p) {
      ClaimedIs(host, entries, p);
    }
  }

  lemma ClaimedIs(host: Host, entries: seq<Declaration>, p: Path)
    ensures p in Claimed(DeclaredReads(host, entries)) <==> IsClaimed(host, entries, p)
  {
    var results := DeclaredReads(host, entries);
    if p in Claimed(results) {
      var i :| 0 <= i < |results| && results[i].Success? && results[i].value.role.configFile == Some(p);
      assert ReadDeclared(host, entries[i]) == results[i];
    }
    if i :| 0 <= i < |entries| && entries[i].role.configFile == Some(p) && ReadDeclared(host, entries[i]).Success? {
      assert results[i].Success? && results[i].value.role.configFile == Some(p);
    }
  }

  lemma DiscoveredSnoc(host: Host, files: seq<Path>, claimed: set<Path>, i: nat)
    requires i < |files|
    ensures var now := DiscoveredReads(host, Unclaimed(files[..i], claimed));
            DiscoveredReads(host, Unclaimed(files[..i+1], claimed)) ==
            if files[i] in claimed then now else now + [ReadDiscovered(host, files[i])]
  {
    assert files[..i+1][..i] == files[..i];
  }

  /** The loop over the role files found below a layer's `agents` directory. */
  method ReadFiles(host: Host, dir: Path, files: seq<Path>, claimed: set<Path>, log: seq<RoleError>)
    returns (roles: map<string, Role>, log': seq<RoleError>)
    ensures roles == Kept(DiscoveredReads(host, Unclaimed(files, claimed)))
    ensures log' == log + Complaints(DiscoveredReads(host, Unclaimed(files, claimed)), Some(dir))
  {
    roles, log' := map[], log;
    ghost var results: seq<Read> := [];
    for i := 0 to |files|
      invariant results == DiscoveredReads(host, Unclaimed(files[..i], claimed))
      invariant roles == Kept(results)
      invariant log' == log + Complaints(results, Some(dir))
    {
      DiscoveredSnoc(host, files, claimed, i);
      if files[i] in claimed {
        continue;
      }
      var read := ReadDiscovered(host, files[i]);
      ReadsSnoc(results, read, Some(dir));
      Assoc(log, Complaints(results, Some(dir)), Complaint(read, roles, Some(dir)));
      roles, log' := TakeDefinition(read, roles, Some(dir), log');
      results := results + [read];
    }
    assert files[..|files|] == files;
  }

  method LoadDiscovered(host: Host, dir: Path, claimed: set<Path>, log: seq<RoleError>)
    returns (r: Result<map<string, Role>, RoleError>, log': seq<RoleError>)
    ensures r.Failure? <==> Broken(host.directory(dir))
    ensures r.Failure? ==> log' == log
    ensures r.Failure? ==> r.error.ReadFailed? && FirstError(host.directory(dir)) == Some(r.error.io)
    ensures var results := DiscoveredReads(host, Unclaimed(Collected(dir, host.directory(dir)), claimed));
            r.Success? ==> r.value == Kept(results) && log' == log + Complaints(results, Some(dir))
  {
    var found := CollectRoleFiles(dir, host.directory(dir));
    if found.Failure? {
      return Failure(ReadFailed(found.error)), log;
    }
    var roles;
    roles, log' := ReadFiles(host, dir, found.value, claimed, log);
    r := Success(roles);
  }

  /** The entries of a map under some of its keys. */
  ghost function Part<V>(m: map<string, V>, names: seq<string>): map<string, V> {
    map n | n in names && n in m :: m[n]
  }

  lemma PartSnoc<V>(m: map<string, V>, names: seq<string>, i: nat)
    requires i < |names| && names[i] in m
    ensures Part(m, names[..i+1]) == Part(m, names[..i])[names[i] := m[names[i]]]
    ensures Distinct(names) ==> names[i] !in Part(m, names[..i])
  {
    assert names[..i+1] == names[..i] + [names[i]];
  }

  lemma PartAll<V>(m: map<string, V>, names: seq<string>)
    requires forall n :: n in m ==> n in names
    ensures Part(m, names) == m
  {
  }

  lemma ClashSnoc(names: seq<string>, declared: set<string>, i: nat)
    requires i < |names|
    ensures ClashWarnings(names[..i+1], declared) ==
            if names[i] in declared then ClashWarnings(names[..i], declared) + [DuplicateInLayer(names[i])]
            else ClashWarnings(names[..i], declared)
  {
    assert names[..i+1][..i] == names[..i];
  }

  /** Adding one more discovered name under the declared ones. */
  lemma AddStep(declared: map<string, Role>, discovered: map<string, Role>, names: seq<string>, i: nat)
    requires i < |names| && Distinct(names) && names[i] in discovered
    ensures var now := Part(discovered, names[..i]) + declared;
            && (names[i] in now <==> names[i] in declared)
            && Part(discovered, names[..i+1]) + declared ==
               if names[i] in declared then now else now[names[i] := discovered[names[i]]]
  {
    PartSnoc(discovered, names, i);
  }

  /** Adds the discovered roles that a layer does not declare. */
  method AddDiscovered(declared: map<string, Role>, discovered: map<string, Role>, log: seq<RoleError>)
    returns (roles: map<string, Role>, log': seq<RoleError>)
    ensures roles == discovered + declared
    ensures log' == log + ClashWarnings(SortedKeys(discovered.Keys), declared.Keys)
  {
    var names := KeysInOrder(discovered.Keys);
    roles, log' := AddInOrder(declared, discovered, names, log);
  }

  method AddInOrder(declared: map<string, Role>, discovered: map<string, Role>, names: seq<string>, log: seq<RoleError>)
    returns (roles: map<string, Role>, log': seq<RoleError>)
    requires Distinct(names) && forall n :: n in names <==> n in discovered
    ensures roles == discovered + declared
    ensures log' == log + ClashWarnings(names, declared.Keys)
  {
    roles, log' := declared, log;
    assert Part(discovered, names[..0]) + declared == declared;
    for i := 0 to |names|
      invariant roles == Part(discovered, names[..i]) + declared
      invariant log' == log + ClashWarnings(names[..i], declared.Keys)
    {
      var name := names[i];
      AddStep(declared, discovered, names, i);
      ClashSnoc(names, declared.Keys, i);
      Assoc(log, ClashWarnings(names[..i], declared.Keys), [DuplicateInLayer(name)]);
      if name in roles {
        log' := log' + [DuplicateInLayer(name)];
      } else {
        roles := roles[name := discovered[name]];
      }
    }
    assert names[..|names|] == names;
    PartAll(discovered, names);
  }

  lemma MergeAt(roles: map<string, Role>, layer: map<string, Role>, n: string)
    ensures n in MergeLayer(roles, layer) <==> n in roles || n in Entering(roles, layer)
    ensures n in Entering(roles, layer) ==> MergeLayer(roles, layer)[n] == MergedRole(roles, layer, n)
    ensures n in roles && n !in Entering(roles, layer) ==> MergeLayer(roles, layer)[n] == roles[n]
  {
  }

  /** Merging one more name of a layer. */
  lemma MergeStep(roles: map<string, Role>, layer: map<string, Role>, names: seq<string>, i: nat)
    requires i < |names| && Distinct(names) && names[i] in layer
    ensures Lookup(MergeLayer(roles, Part(layer, names[..i])), names[i]) == Lookup(roles, names[i])
    ensures var now := MergeLayer(roles, Part(layer, names[..i]));
            var role := MergedRole(roles, layer, names[i]);
            MergeLayer(roles, Part(layer, names[..i+1])) == if role.description.Some? then now[names[i] := role] else now
  {
    PartSnoc(layer, names, i);
    var part, more := Part(layer, names[..i]), Part(layer, names[..i+1]);
    var role := MergedRole(roles, layer, names[i]);
    var now, next := MergeLayer(roles, part), MergeLayer(roles, more);
    var expected := if role.description.Some? then now[names[i] := role] else now;
    forall n ensures Lookup(next, n) == Lookup(expected, n) {
      MergeAt(roles, part, n);
      MergeAt(roles, more, n);
    }
    SameLookups(next, expected);
  }

  lemma SameLookups<V>(a: map<string, V>, b: map<string, V>)
    requires forall n :: Lookup(a, n) == Lookup(b, n)
    ensures a == b
  {
    assert forall n :: n in a ==> Lookup(a, n) == Lookup(b, n);
    assert forall n :: n in b ==> Lookup(b, n) == Lookup(a, n);
    assert a.Keys == b.Keys;
  }

  lemma MergeWarningsSnoc(names: seq<string>, entering: set<string>, i: nat)
    requires i < |names|
    ensures MergeWarnings(names[..i+1], entering) ==
            if names[i] in entering then MergeWarnings(names[..i], entering)
            else MergeWarnings(names[..i], entering) + [MissingDescription(names[i])]
  {
    assert names[..i+1][..i] == names[..i];
  }

  /** Merges a layer's definitions into the result. */
  method MergeDefinitions(roles: map<string, Role>, layer: map<string, Role>, log: seq<RoleError>)
    returns (merged: map<string, Role>, log': seq<RoleError>)
    ensures merged == MergeLayer(roles, layer)
    ensures log' == log + MergeWarnings(SortedKeys(layer.Keys), Entering(roles, layer))
  {
    var names := KeysInOrder(layer.Keys);
    merged, log' := MergeInOrder(roles, layer, names, log);
  }

  method MergeInOrder(roles: map<string, Role>, layer: map<string, Role>, names: seq<string>, log: seq<RoleError>)
    returns (merged: map<string, Role>, log': seq<RoleError>)
    requires Distinct(names) && forall n :: n in names <==> n in layer
    ensures merged == MergeLayer(roles, layer)
    ensures log' == log + MergeWarnings(names, Entering(roles, layer))
  {
    merged, log' := roles, log;
    ghost var entering := Entering(roles, layer);
    assert Part(layer, names[..0]) == map[];
    assert MergeLayer(roles, map[]) == roles;
    for i := 0 to |names|
      invariant merged == MergeLayer(roles, Part(layer, names[..i]))
      invariant log' == log + MergeWarnings(names[..i], entering)
    {
      MergeStep(roles, layer, names, i);
      MergeWarningsSnoc(names, entering, i);
      var name := names[i];
      Assoc(log, MergeWarnings(names[..i], entering), [MissingDescription(name)]);
      var role := Overlay(layer[name], Lookup(merged, name));
      if role.description.None? {
        log' := log' + [MissingDescription(name)];
      } else {
        merged := merged[name := role];
      }
    }
    assert names[..|names|] == names;
    PartAll(layer, names);
  }

  /** Declared and discovered definitions of one layer. */
  method ReadLayer(host: Host, layer: Layer, log: seq<RoleError>)
    returns (r: Result<map<string, Role>, RoleError>, log': seq<RoleError>)
    ensures r.Failure? <==> SearchFails(host, layer)
    ensures r.Failure? ==> log' == log + DeclaredWarnings(host, layer) && IsSearchError(host, layer, r.error)
    ensures r.Success? ==> r.value == LayerRoles(host, layer)
    ensures r.Success? ==> log' == log + DeclaredWarnings(host, layer) + DiscoveredWarnings(host, layer)
  {
    log' := log + TableWarnings(layer);
    var layerRoles, claimed;
    layerRoles, claimed, log' := LoadDeclared(host, DeclaredEntries(layer), log');
    Assoc(log, TableWarnings(layer), Complaints(LayerDeclared(host, layer), None));
    if layer.folder.None? {
      assert LayerDiscovered(host, layer) == [];
      return Success(layerRoles), log';
    }
    ghost var now := log';
    var dir := AgentsDir(layer.folder.value);
    var found;
    found, log' := LoadDiscovered(host, dir, claimed, log');
    if found.Failure? {
      return Failure(found.error), log';
    }
    layerRoles, log' := AddDiscovered(layerRoles, found.value, log');
    Assoc(now, Complaints(LayerDiscovered(host, layer), Some(dir)),
          ClashWarnings(SortedKeys(Kept(LayerDiscovered(host, layer)).Keys), Kept(LayerDeclared(host, layer)).Keys));
    r := Success(layerRoles);
  }

  /** The body of the loop over layers. */
  method LoadLayer(host: Host, layer: Layer, roles: map<string, Role>, log: seq<RoleError>)
    returns (r: Result<map<string, Role>, RoleError>, log': seq<RoleError>)
    ensures r.Failure? <==> SearchFails(host, layer)
    ensures r.Failure? ==> log' == log + DeclaredWarnings(host, layer) && IsSearchError(host, layer, r.error)
    ensures r.Success? ==> r.value == MergeLayer(roles, LayerRoles(host, layer))
    ensures r.Success? ==> log' == log + LayerWarnings(host, roles, layer)
  {
    var found;
    found, log' := ReadLayer(host, layer, log);
    if found.Failure? {
      return Failure(found.error), log';
    }
    var merged;
    merged, log' := MergeDefinitions(roles, found.value, log');
    ghost var last := MergeWarnings(SortedKeys(LayerRoles(host, layer).Keys), Entering(roles, LayerRoles(host, layer)));
    Assoc(log, DeclaredWarnings(host, layer), DiscoveredWarnings(host, layer));
    Assoc(log, DeclaredWarnings(host, layer) + DiscoveredWarnings(host, layer), last);
    r := Success(merged);
  }

  lemma LoadedSnoc(host: Host, layers: seq<Layer>, i: nat)
    requires i < |layers|
    ensures Loaded(host, layers[..i+1]) == MergeLayer(Loaded(host, layers[..i]), LayerRoles(host, layers[i]))
    ensures Warned(host, layers[..i+1]) == Warned(host, layers[..i]) + LayerWarnings(host, Loaded(host, layers[..i]), layers[i])
  {
    assert layers[..i+1][..i] == layers[..i];
    assert LayerMaps(host, layers[..i+1])[..i] == LayerMaps(host, layers[..i]);
    assert LayerMaps(host, layers[..i+1])[i] == LayerRoles(host, layers[i]);
  }

  /** The load stops at layer `k`, the lowest whose search fails, with that search's error and the
      warnings up to that layer's declared roles. */
  ghost predicate StopsAt(host: Host, layers: seq<Layer>, k: nat, e: RoleError, log: seq<RoleError>, log': seq<RoleError>) {
    && FailsAt(host, layers, k) && IsSearchError(host, layers[k], e)
    && log' == log + (Warned(host, layers[..k]) + DeclaredWarnings(host, layers[k]))
  }

  /** The loop over layers, lowest precedence first. */
  method LoadLayers(host: Host, layers: seq<Layer>, log: seq<RoleError>)
    returns (r: Result<map<string, Role>, RoleError>, log': seq<RoleError>)
    ensures r.Failure? <==> exists k :: 0 <= k < |layers| && SearchFails(host, layers[k])
    ensures r.Success? ==> r.value == Loaded(host, layers) && log' == log + Warned(host, layers)
    ensures r.Failure? ==> exists k: nat :: StopsAt(host, layers, k, r.error, log, log')
  {
    var roles: map<string, Role> := map[];
    log' := log;
    for i := 0 to |layers|
      invariant roles == Loaded(host, layers[..i])
      invariant log' == log + Warned(host, layers[..i])
      invariant NoneFail(host, layers, i)
    {
      LoadedSnoc(host, layers, i);
      ghost var warned := Warned(host, layers[..i]);
      Assoc(log, warned, DeclaredWarnings(host, layers[i]));
      Assoc(log, warned, LayerWarnings(host, roles, layers[i]));
      var next;
      next, log' := LoadLayer(host, layers[i], roles, log');
      if next.Failure? {
        assert StopsAt(host, layers, i, next.error, log, log');
        return Failure(next.error), log';
      }
      NoneFailSnoc(host, layers, i);
      roles := next.value;
    }
    assert layers[..|layers|] == layers;
    r := Success(roles);
  }

  ghost predicate NoneFail(host: Host, layers: seq<Layer>, k: nat)
    requires k <= |layers|
  {
    forall j :: 0 <= j < k ==> !SearchFails(host, layers[j])
  }

  lemma NoneFailSnoc(host: Host, layers: seq<Layer>, k: nat)
    requires k < |layers| && NoneFail(host, layers, k) && !SearchFails(host, layers[k])
    ensures NoneFail(host, layers, k + 1)
  {
  }

  /** Layer `k` is the lowest whose search fails. */
  ghost predicate FailsAt(host: Host, layers: seq<Layer>, k: nat) {
    k < |layers| && SearchFails(host, layers[k]) && NoneFail(host, layers, k)
  }

  /** A layered load that succeeds with the map and appends the warnings. */
  ghost predicate Returns(host: Host, layers: seq<Layer>, m: map<string, Role>, warnings: seq<RoleError>) {
    NoneFail(host, layers, |layers|) && m == Loaded(host, layers) && warnings == Warned(host, layers)
  }

  lemma Cancel<T>(log: seq<T>, a: seq<T>, b: seq<T>)
    ensures log + a == log + b <==> a == b
  {
    assert (log + a)[|log|..] == a && (log + b)[|log|..] == b;
  }

  /** The whole load. Warnings are only ever appended, also when it fails. */
  method Load(host: Host, agents: Option<seq<Declaration>>, layers: seq<Layer>, log: seq<RoleError>)
    returns (r: Result<map<string, Role>, RoleError>, log': seq<RoleError>)
    ensures layers == [] ==> r == Strict(host, if agents.Some? then agents.value else []) && log' == log
    ensures layers != [] ==> (r.Failure? <==> exists k :: 0 <= k < |layers| && SearchFails(host, layers[k]))
    ensures layers != [] && r.Success? ==> r.value == Loaded(host, layers) && log' == log + Warned(host, layers)
    ensures layers != [] && r.Failure? ==> exists k: nat :: StopsAt(host, layers, k, r.error, log, log')
    ensures layers != [] ==> forall m, w :: Returns(host, layers, m, w) <==> r == Success(m) && log' == log + w
  {
    if layers == [] {
      r := LoadWithoutLayers(host, agents);
      log' := log;
    } else {
      r, log' := LoadLayers(host, layers, log);
      assert r.Success? <==> NoneFail(host, layers, |layers|);
      forall m, w ensures Returns(host, layers, m, w) <==> r == Success(m) && log' == log + w {
        Cancel(log, w, Warned(host, layers));
      }
    }
  }
}
