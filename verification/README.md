# Verified models of agent roles, the spawn graph, analytics delivery and key encodings

This project models the parts of the repository whose behaviour is decided by loops over
changing state, and proves what they promise for all inputs and all runs. Verify everything with
`dafny verify dfyconfig.toml`.

| file | models |
|---|---|
| `RoleConfig.dfy` | trimming, nickname and description rules, and acceptance of one role file |
| `Discovery.dfy` | the worklist search for role files in a directory tree |
| `RoleLoader.dfy` | the layered and the strict role loader, loop by loop |
| `RoleRules.dfy` | the rules those loaders obey, stated without their loops |
| `SpawnGraph.dfy` | the thread-spawn table, its recursive descendant query, and the forest it describes |
| `EventQueue.dfy` | the analytics queue as a state machine over every interleaving of producers, flush callers and worker |
| `Batching.dfy` | splitting events into requests under isolation and credentials |
| `Dedupe.dfy` | the two bounded sets that suppress repeated events |
| `DiffLines.dfy` | counting added and deleted lines of a diff, against a diff printer |
| `AppServerPath.dfy` | splitting and joining host paths under two separator conventions |
| `Identity.dfy` | X25519 key clamping and SSH length-prefixed strings |
| `Orders.dfy`, `Wrappers.dfy` | total orders, sorting, subsequences; optional values and results |

How the source is rendered:

- Loops are methods with invariants. Each is proved equal to a function of its inputs, and the
  properties are lemmas about that function.
- A `&mut Vec` of warnings or bytes is handed in and returned extended.
- The file system is a fixed host: functions from paths to metadata, text and directory trees. A
  directory tree is finite; a node may be unreadable. TOML deserialisation is an arbitrary
  function from text and base directory to fields or an error.
- A path is its list of components, and paths compare component by component. A thread id is a
  number, because fixed-width UUID text orders like one.
- The analytics reducer is an arbitrary initial state with arbitrary ingest and flush functions.
  The credential found at each delivery is arbitrary too.
- The channel follows a fair bounded queue: a slot freed while a flush waits is promised to the
  flush that has waited longest, and a promised slot is not available to other senders.

Four expectations are false of the code as it stands. Each has a lemma with the exact condition and
one at an input that fails:

- `SpawnGraph.QueryStopsIffAcyclic`: the recursive descendant query ends only if the root is not its
  own descendant. `SpawnGraph.UpsertKeepsForestIff` says when an insert keeps every root that way.
  `SpawnGraph.SelfParentNeverStops` is a thread recorded as its own parent.
- `DiffLines.CountsExactIff`: name lines that follow a hunk with no `diff --git` line between them
  are counted as changes. `DiffLines.PlainDiffMiscounted` gives the failing family, any two files of
  a plain unified diff, and `DiffLines.PlainDiffExample` one of them.
- `AppServerPath.JoinCleanIff`, and `AppServerPath.JoinAllCleanIff` for any number of joins: joining
  onto a bare root can change the path's style or make it relative. `AppServerPath.BareRootsFail`
  joins `/x` to `/` and `srv` to `//`.
- `Identity.ReadBackIff`: an SSH string of 2^32 bytes or more cannot be read back, because its length
  is cut to 32 bits. `Identity.OverlongLost` is the shortest such string.

## Model

| member | source | states |
|---|---|---|
| `RoleRules.LayeredPrecedence` | agent-roles/src/loader.rs:34-114 | For every layered load the precedence rule below holds of what the layers define on their own |
| `RoleRules.PrecedenceRule` | agent-roles/src/loader.rs:100-113 | Merging definitions lowest layer first: a role is loaded iff some layer's own definition of it has a description; with k the lowest such layer, every field is the one set by the highest layer at or above k, and layers below k contribute nothing |
| `RoleRules.WarningsAccounted` | agent-roles/src/loader.rs:39-113 | Over every successful layered load, warnings plus merges into the result equal malformed tables plus declared definitions plus unclaimed role files |
| `RoleRules.StoppedWarningsAccounted` | agent-roles/src/loader.rs:39-82 | For a load that stops at layer k, the same over the layers below it; of layer k the declared definitions are kept or warned about, and nothing of it is merged |
| `RoleRules.LayerKeepsFirst` | agent-roles/src/loader.rs:46-98 | A layer keeps the first readable definition of each name, declared entries before role files by sorted path; files claimed by any readable declared role, even a duplicate, are not read again |
| `RoleRules.LayerSources` | agent-roles/src/loader.rs:46-59 | A layer's declared definitions are its entries in order; no found file that is a readable declaration's config file is read again, kept or not, and every other found file is |
| `RoleRules.FoundAre` | agent-roles/src/loader.rs:75-82 | The files found for a layer are the reachable plain files with role file names below its folder's `agents` directory |
| `RoleRules.SearchErrorIs` | agent-roles/src/loader.rs:75-82 | A layer's search fails iff a directory there gives an error other than not-found, and reports the one met first |
| `RoleRules.ComplaintsAre` | agent-roles/src/loader.rs:51-70 | The warnings for a list of definitions are exactly the errors of the unreadable ones and a duplicate notice for each later one of a name |
| `RoleRules.ComplaintsInOrder` | agent-roles/src/loader.rs:48-71 | One warning for each definition not kept, in the order of the definitions |
| `RoleRules.LayerWarningsAre` | agent-roles/src/loader.rs:39-113 | A layer's warnings are, in order: its malformed table, declared definitions not kept, role files not kept, names both declared and discovered, and names without a description here or below, the last two by ascending name |
| `RoleRules.MergeWarningsAre` | agent-roles/src/loader.rs:105-111 | The merge warns exactly about the names whose merged definition lacks a description |
| `RoleRules.StrictMatchesLayered` | agent-roles/src/loader.rs:125-145 | With one layer holding the same table and no role files, the layered load succeeds with m and no warning iff the strict loader succeeds with m and the layer's search does not fail |
| `RoleRules.StrictIs` | agent-roles/src/loader.rs:131-141 | The strict loader succeeds iff every entry is read, kept and described, and then returns them all |
| `RoleRules.StrictStopsAtFirst` | agent-roles/src/loader.rs:132-140 | A strict failure is the error of the first entry it cannot take: unreadable, undescribed or duplicate |
| `RoleRules.LoadedValid` | agent-roles/src/loader.rs:100-113 | Every role of a layered load has a trimmed non-blank description and either no nicknames or valid ones |
| `RoleRules.StrictValid` | agent-roles/src/loader.rs:131-144 | The same for every role of a strict load |
| `RoleRules.ListingOrderIndependent` | agent-roles/src/loader.rs:75-98 | Hosts that differ only in directory listing order give the same roles, the same warnings and fail on the same layers |
| `RoleRules.DiscoveredAcceptedIff` | agent-roles/src/loader.rs:302-331 | A discovered file defines a role iff it is readable, deserialises, names its role, has instructions, and its other fields are in order; the role then holds the trimmed fields and the file's path |
| `RoleRules.DeclaredAloneIff` | agent-roles/src/loader.rs:147-163 | A declaration without a config file is accepted iff its own fields are in order, and is its trimmed fields under its table name |
| `RoleRules.DeclaredWithFileIff` | agent-roles/src/loader.rs:152-163 | A declaration with a config file is accepted iff the file exists as a file, is readable and in order, and so are its own fields; the file's name and settings win |
| `RoleRules.DeclaredErrorIs` | agent-roles/src/loader.rs:147-163 | The error of a declaration is the first that applies: config file absent, not a file, blank description, nicknames, then the errors of reading the file |
| `RoleRules.DiscoveredErrorIs` | agent-roles/src/loader.rs:302-312 | A discovered file gives the error of reading, deserialising or resolving it |
| `RoleLoader.Load` | agent-roles/src/loader.rs:23-117 | Without layers the strict result and no warning; otherwise failure iff some layer's search fails, with the error of the lowest such layer, and the exact appended warnings in both cases; it returns m and appends w iff no search fails and these are the layers' merged map and warnings |
| `RoleLoader.LoadLayers` | agent-roles/src/loader.rs:34-116 | The loop over layers yields the merged map and appends exactly the warnings of all layers, or those up to the failing layer's declared roles |
| `RoleLoader.LoadLayer` | agent-roles/src/loader.rs:35-114 | One layer merges into the result or fails with its search, appending exactly its warnings |
| `RoleLoader.ReadLayer` | agent-roles/src/loader.rs:36-98 | One layer's own definitions: discovered ones under declared ones |
| `RoleLoader.LoadDeclared` | agent-roles/src/loader.rs:46-73 | The declared loop keeps first definitions and warns about the rest; a file is claimed iff it is the config file of an entry that can be read, kept or not |
| `RoleLoader.TakeDefinition` | agent-roles/src/loader.rs:48-71 | One definition is kept under a new name, or leaves its error or a duplicate notice |
| `RoleLoader.LoadDiscovered` | agent-roles/src/loader.rs:290-335 | Discovery fails iff the search fails, with the search's error and no warning; otherwise it keeps first definitions of unclaimed files |
| `RoleLoader.ReadFiles` | agent-roles/src/loader.rs:298-332 | The loop over found files skips claimed ones, keeps first definitions and warns about the rest |
| `RoleLoader.AddDiscovered` | agent-roles/src/loader.rs:76-97 | Discovered roles are added where the layer declares none, with a duplicate warning otherwise, in name order |
| `RoleLoader.MergeDefinitions` | agent-roles/src/loader.rs:100-113 | Every name of the layer takes missing fields from the result so far and enters it iff it is then described; otherwise it is reported, in name order |
| `RoleLoader.LoadWithoutLayers` | agent-roles/src/loader.rs:125-145 | The strict loop computes the strict result |
| `RoleConfig.NormalizeNicknames` | agent-roles/src/agent_role_config.rs:159-209 | The validation loop with its seen-set returns the normalised list or the error of the first faulty name |
| `RoleConfig.NicknamesAccepted` | agent-roles/src/agent_role_config.rs:167-208 | A list is accepted iff, trimmed, it is non-empty, without blanks or repeats and over the allowed characters; the result is the trimmed list |
| `RoleConfig.NicknamesIdempotent` | agent-roles/src/agent_role_config.rs:174-208 | Normalised nicknames are valid and normalise to themselves |
| `RoleConfig.FirstFaultIs` | agent-roles/src/agent_role_config.rs:177-203 | The error reported is that of the first faulty name |
| `RoleConfig.NicknameErrorIs` | agent-roles/src/agent_role_config.rs:177-203 | At the first name that spoils the trimmed list the error is blank, repeated or bad characters, in that order |
| `RoleConfig.AllowedCodes` | agent-roles/src/agent_role_config.rs:193-195 | The allowed characters by their ASCII codes |
| `RoleConfig.RoleFileAcceptedIff` | agent-roles/src/agent_role_config.rs:63-96 | A deserialised file is accepted iff its texts are not blank, its nicknames valid, and without a given name it has a name and instructions; its own name wins |
| `RoleConfig.RoleFileErrorIs` | agent-roles/src/agent_role_config.rs:63-96 | The error of a role file is the first that applies: blank description, blank or missing instructions, missing name, nicknames |
| `RoleConfig.TrimSplits` | agent-roles/src/agent_role_config.rs:124-129 | Trimming removes only leading and trailing white space, and all of it |
| `RoleConfig.TrimIs` | agent-roles/src/agent_role_config.rs:178-179 | Trimming is the only decomposition into space, trimmed middle and space |
| `RoleConfig.SpaceChars` | agent-roles/src/agent_role_config.rs:124 | The characters trimmed are the 25 of the Unicode White_Space property |
| `Discovery.CollectRoleFiles` | agent-roles/src/discovery.rs:7-40 | The traversal ends, fails iff a reachable directory gives an error other than not-found, with the error of a directory that is read before every other failing one, and otherwise returns the sorted role files |
| `Discovery.ScanEntries` | agent-roles/src/discovery.rs:21-35 | Reading one directory moves its role files to the result and its folders to the stack, losing and inventing nothing |
| `Discovery.BrokenHasError` | agent-roles/src/discovery.rs:15-19 | There is an error to report iff a reachable directory gives one other than not-found |
| `Discovery.FirstErrorIs` | agent-roles/src/discovery.rs:12-25 | The error reported is given by a reachable directory that the stack reaches before every other failing one: parents before children, later entries before earlier ones |
| `Discovery.RoleFilesAreReachable` | agent-roles/src/discovery.rs:13-36 | A path is found iff following its names from the root ends at a plain file with a role file name |
| `Discovery.FoundOnce` | agent-roles/src/discovery.rs:21-35 | In a tree without repeated names every file is found once |
| `Discovery.TomlNames` | agent-roles/src/discovery.rs:27-31 | The names that qualify are those ending in `.toml` with something before it |
| `Discovery.ListingOrderIrrelevant` | agent-roles/src/discovery.rs:21-39 | Trees that differ only in listing order, at any depth, give the same outcome and list |
| `Orders.PathOrder` | agent-roles/src/discovery.rs:38 | A path sorts first iff it leads to the other or has the earlier name where they first differ |
| `Orders.StringOrder` | agent-roles/src/loader.rs:100 | A name sorts first iff it is a prefix or has the smaller character where they first differ |
| `SpawnGraph.Store.UpsertEdge` | state/src/runtime/threads.rs:124-148 | The edge into a child replaces any earlier one; the child has no other parent |
| `SpawnGraph.Store.SetEdgeStatus` | state/src/runtime/threads.rs:151-162 | An existing child's edge takes the status and keeps its parent, whatever the status was; nothing else changes and a missing child is a no-op |
| `SpawnGraph.Store.ListChildren` | state/src/runtime/threads.rs:262-282 | Exactly the children of the parent whose edge has the filter's status, or any without a filter, in strictly ascending order of id |
| `SpawnGraph.Store.ListDescendants` | state/src/runtime/threads.rs:284-336 | On an acyclic root the query ends and returns exactly the ends of matching paths, shorter paths first and equal lengths by ascending id |
| `SpawnGraph.Store.Subtree` | state/src/runtime/threads.rs:290-322 | The queue-driven recursion ends with distinct descendant rows that include all matching children of the root and of every row |
| `SpawnGraph.ListedBreadthFirst` | agent-graph-store/src/store.rs:49-59 | The listing holds exactly the threads at the end of a path of matching edges; one reached by a shorter path comes first, and equal lengths go by id |
| `SpawnGraph.StatusDecides` | agent-graph-store/src/store.rs:29-47 | After a status is set, its child is listed iff there is no filter or the filter is that status; other children are unaffected, and setting the old status back undoes it |
| `SpawnGraph.Descendants` | agent-graph-store/src/store.rs:49-59 | The listing holds exactly the threads at each depth of matching edges, strictly ordered by depth and id |
| `SpawnGraph.LevelIsPaths` | agent-graph-store/src/store.rs:51-54 | A thread is at depth d iff a path of d edges, all matching the filter, leads to it |
| `SpawnGraph.ListedOnce` | agent-graph-store/src/store.rs:49-59 | No thread is listed twice |
| `SpawnGraph.PathUnique` | agent-graph-store/src/store.rs:18-21 | Below an acyclic root there is one path to every thread: the reachable part is a tree |
| `SpawnGraph.UniqueDepth` | agent-graph-store/src/store.rs:20-21 | Below an acyclic root every thread has one depth |
| `SpawnGraph.QueryStopsIffAcyclic` | state/src/runtime/threads.rs:291-327 | The recursive query runs out of rows iff the root is not its own descendant over matching edges |
| `SpawnGraph.SelfParentNeverStops` | state/src/runtime/threads.rs:291-327 | A thread recorded as its own parent gives rows at every depth |
| `SpawnGraph.FilteredIsSubsequence` | agent-graph-store/src/store.rs:49-54 | A filtered listing is the unfiltered one with rows left out |
| `SpawnGraph.CloseRemovesSubtree` | agent-graph-store/src/store.rs:29-36 | Closing the edge into c removes from an open listing exactly c and its open descendants if c is listed, nothing otherwise, and keeps the order of the rest |
| `SpawnGraph.UpsertKeepsForestIff` | agent-graph-store/src/store.rs:18-27 | An insert keeps the table free of cycles iff the new parent is neither the child nor below it |
| `EventQueue.SequentialDelivery` | analytics/src/client.rs:158-195 | On every interleaving the lists handed to delivery are those of a sequential reducer run over the accepted messages, nothing accepted is lost, the wire carries exactly their deliverable events, and the backlog is at most 256 |
| `EventQueue.OneReducer` | analytics/src/client.rs:158-184 | On every interleaving there are states, the first initial, such that each accepted message's ingest or flush takes one to the next and gives the list handed over; the wire carries for each list what its credential lets through |
| `EventQueue.FactsConserved` | analytics/src/client.rs:186-195 | Submitted facts are the facts of the run's submissions in order, and are accepted facts, in order, plus dropped ones |
| `EventQueue.DropsWhenFull` | analytics/src/client.rs:186-194 | A fact is dropped exactly when every slot is filled or promised |
| `EventQueue.FlushBarrier` | analytics/src/client.rs:163-177 | When a flush is acknowledged, everything ahead of it, in particular everything accepted before it was called, has been reduced and handed over, followed by the reducer's flush output |
| `EventQueue.AnsweredIff` | analytics/src/client.rs:163-172 | A caller that does not give up is answered iff its flush is handed over and the worker has moved on |
| `EventQueue.HistoryGrows` | analytics/src/client.rs:256-277 | Along every run the accepted, handed and delivered histories only grow, and a flush once answered or given up stays so |
| `EventQueue.FirstComeFirstServed` | analytics/src/client.rs:262-266 | Flushes that must wait for room get their slots in the order in which they called, whoever gives up meanwhile |
| `EventQueue.GivenUpStillReduced` | analytics/src/client.rs:256-277 | On every run with a flush that times out: it ends in the log iff it was there when it gave up, keeps its position, and is reduced in its turn or still ahead of the worker; its caller is never answered |
| `EventQueue.FlushServed` | analytics/src/client.rs:163-172 | No run lets the worker take 4(i+1) steps while the flush at position i is still unanswered |
| `EventQueue.BlockedServed` | analytics/src/client.rs:256-266 | A flush that must wait for room behind w others waits while at most w messages are taken, and fewer than 4(w+1) worker steps are made |
| `EventQueue.FlushCanMove` | analytics/src/client.rs:262-270 | While a flush is pending, the worker or a flush holding a slot can always move |
| `EventQueue.DrainedOnStop` | analytics/src/client.rs:163-178 | A worker that has stopped has handed over the output of everything ever accepted |
| `EventQueue.Invariant` | analytics/src/client.rs:80-96 | Every state of every run keeps flow, slots, waiting lines, barriers, counts and wire in agreement |
| `EventQueue.RunWorker` | analytics/src/client.rs:162-178 | The worker loop passes one reducer state through every message in turn, sends what each credential lets through, and acknowledges exactly the flushes in order |
| `Batching.TrackEventBatches` | analytics/src/client.rs:852-873 | Order and content kept, no empty batch, a fingerprint event always alone, and neighbouring batches split only by one |
| `Batching.FewestBatches` | analytics/src/client.rs:852-873 | Such a split has the fewest batches of all splits that obey isolation, and is the only one with that number |
| `Batching.SendTrackEvents` | analytics/src/client.rs:826-850 | The backend credential sends everything, an API key exactly the events that carry a plugin id, in order and in at most one request, any other credential or none makes no request; requests are a good split of what is sent |
| `Batching.OneBatch` | analytics/src/events.rs:158-173 | Events of which none is isolated fit one batch |
| `Batching.DeliverableIs` | analytics/src/events.rs:162-172 | What each credential lets through, with the plugin rule spelled out by event kind |
| `Dedupe.EmittedKeys.ShouldEnqueueAppUsed` | analytics/src/client.rs:197-213 | One step of the app set; an app without connector neither clears nor inserts |
| `Dedupe.EmittedKeys.ShouldEnqueuePluginUsed` | analytics/src/client.rs:215-236 | One step of the plugin set; a full set is cleared even for a plugin without an id |
| `Dedupe.Accounting` | analytics/src/client.rs:197-236 | Over every run, 4096 times the clears plus the size equals the keyed calls answered yes, and the size is at most 4096 |
| `Dedupe.RepeatBound` | analytics/src/client.rs:197-236 | No key is let through more than 1 + (keyed yes answers)/4096 times |
| `Dedupe.ExactWhileSmall` | analytics/src/client.rs:209-212 | While fewer than 4096 distinct keys came before, every answer is that of an unbounded set |
| `Dedupe.ExactOverRuns` | analytics/src/client.rs:197-236 | On every run, a call clears iff 4096 distinct keys came since the last clearing call and it has a key or is of the plugin kind; a key is let through iff the call clears or the key did not come since then |
| `Dedupe.KeysSinceClear` | analytics/src/client.rs:197-236 | On every run the set holds exactly the keys of the calls since the last clearing one |
| `Dedupe.ForgetsWhenFull` | analytics/src/client.rs:209-212 | Right after the 4096th distinct key every key is let through again |
| `DiffLines.AcceptedLineCounts` | analytics/src/accepted_lines.rs:27-61 | The counting loop computes the scan of the text's lines |
| `DiffLines.CountsAre` | analytics/src/accepted_lines.rs:32-55 | In any text the added lines are those starting with `+`, except `+++ ` lines outside a hunk, and likewise the deleted ones; a hunk lasts from `@@ ` to the next `diff --git ` |
| `DiffLines.GitDiffsExact` | analytics/src/accepted_lines.rs:27-61 | Printing any git diff and counting gives exactly its added and deleted hunk lines |
| `DiffLines.CountsOfPrinted` | analytics/src/accepted_lines.rs:32-55 | For any diff, with or without `diff --git` lines, the count is the true count plus one of each for every misread pair of name lines |
| `DiffLines.CountsExactIff` | analytics/src/accepted_lines.rs:33-45 | The count is right iff a `diff --git` line stands between every hunk and later name lines |
| `DiffLines.PlainDiffMiscounted` | analytics/src/accepted_lines.rs:43-45 | A file with a hunk followed by name lines without `diff --git` is always miscounted |
| `DiffLines.PlainDiffExample` | analytics/src/accepted_lines.rs:43-45 | One well-formed plain diff of two files that is miscounted |
| `DiffLines.CountsAppend` | analytics/src/accepted_lines.rs:33-36 | Counts add up when a text starting with `diff --git ` is appended to text that ends its last line |
| `DiffLines.LinesConcat` | analytics/src/accepted_lines.rs:32 | The lines of newline-terminated text and of what follows it are listed one after the other |
| `DiffLines.LinesOfTail` | analytics/src/accepted_lines.rs:32 | A last line without a line feed is taken as it is |
| `DiffLines.LineEnds` | analytics/src/accepted_lines.rs:32 | A line ends at a line feed, with or without a carriage return before it |
| `AppServerPath.JoinAllCleanIff` | app-server-client/src/path.rs:21-58 | Any joins onto any absolute path end absolute, of its style and with the segments' pieces appended in order, iff the path has a component or the first segments lead safely away from the bare root |
| `AppServerPath.JoinCleanIff` | app-server-client/src/path.rs:33-58 | One join onto an absolute path does so iff the path has a component or the segment starts as the bare root needs |
| `AppServerPath.JoinText` | app-server-client/src/path.rs:33-41 | The joined text is the base without its trailing separators, one backslash for a Windows base and one slash otherwise, and the segment |
| `AppServerPath.BaseSplits` | app-server-client/src/path.rs:35-39 | Every base has that form |
| `AppServerPath.WindowsIff` | app-server-client/src/path.rs:50-58 | A path is Windows style iff it starts with a drive and a separator or with two equal slashes, and absolute iff it is or starts with a slash |
| `AppServerPath.BareRootsFail` | app-server-client/src/path.rs:33-58 | Neither `/x` joined to `/` nor `srv` joined to `//` keeps the base absolute, of its style and with both sides' components |
| `AppServerPath.JoinPieces` | app-server-client/src/path.rs:33-41 | Under the base's separators a join always adds the segment's pieces to the base's |
| `AppServerPath.PiecesConcat` | app-server-client/src/path.rs:27-30 | A separator between two texts separates their pieces |
| `AppServerPath.PiecesOfWhole` | app-server-client/src/path.rs:27-30 | A text without separators is its own only piece |
| `Identity.ClampInPlace` | agent-identity/src/lib.rs:546-548 | The two masked bytes, in place |
| `Identity.SecretKeyFromDigest` | agent-identity/src/lib.rs:542-550 | The key is the clamped first half of the digest |
| `Identity.ClampedValue` | agent-identity/src/lib.rs:546-548 | As a little-endian number the key is 2^254 plus the digest modulo 2^254 less the digest modulo 8 |
| `Identity.ClampedRange` | agent-identity/src/lib.rs:546-548 | The key is a multiple of 8 in [2^254, 2^255), as section 5 of RFC 7748 requires |
| `Identity.ClampIdempotent` | agent-identity/src/lib.rs:546-548 | Clamping twice is clamping once, and all other bits are kept |
| `Identity.AppendSshString` | agent-identity/src/lib.rs:552-555 | The buffer is extended by the 32-bit length and the bytes |
| `Identity.SshStringIs` | agent-identity/src/lib.rs:552-555 | Four bytes, most significant first, hold the length modulo 2^32, and the bytes follow |
| `Identity.ReadBackIff` | agent-identity/src/lib.rs:552-555 | An appended string is read back, with what follows, iff it is shorter than 2^32 |
| `Identity.OverlongLost` | agent-identity/src/lib.rs:552-555 | A string of exactly 2^32 bytes is not read back |
| `Identity.ReadBackAllIff` | agent-identity/src/lib.rs:552-555 | A sequence of appended strings is recovered exactly iff all are shorter than 2^32 |
| `Identity.EncodingInjective` | agent-identity/src/lib.rs:552-555 | Different sequences of such strings have different encodings |
| `Identity.Ed25519Blob` | agent-identity/src/lib.rs:514-519 | The key blob is 51 bytes, with the text `ssh-ed25519` at 4 and the key at 19, and parses back to both |

## Left out

- The analytics reducer's own rules, event payloads and metadata builders: long field copying; the queue results hold for every reducer.
- Network delivery, authentication lookup, capture files and wall-clock timeouts: a delivery takes any credential, and a flush may give up at any moment.
- Signing, sealing, hashing, base64, PKCS#8 and JWT handling: foreign libraries around the modelled bytes.
- The remaining configuration of a role file, which the parser returns with three keys removed: it plays no part in loading.
- Symbolic-link cycles, home-directory expansion of entry names and normalisation of `..` in role directories: the tree is finite and entry names are plain components.
- Message texts of errors and warnings: an error is modelled by its kind and the names and paths it mentions.
- SQL storage errors and concurrent writers of the spawn table: each operation acts on the whole table at once.
- Deleting threads, and finding a spawned child by agent path: simple filters on the same table.
- Finding a spawned descendant by agent path (state/src/runtime/threads.rs:231-260): a second recursive query over all edges, which ends under the same condition as the modelled one without a filter, joined with agent paths that the model does not hold.
- Worker panics and poisoned locks: the worker runs until the channel closes.
- RoleLoader.Load: the `&mut` warning list is an argument and a result, so aliasing with other lists is not modelled.
- DiffLines.GitDiffsExact: metadata lines that themselves start with `+`, `-`, `@@ ` or `diff --git ` are not part of a well-formed diff.
