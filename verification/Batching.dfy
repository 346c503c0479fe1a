/** Splitting analytics events into requests, and what each kind of credential may send. */
module Batching {
  import opened Wrappers
  import opened Orders

  /** The event variants the delivery rules tell apart, with the plugin id they look at. */
  datatype Kind =
    | AcceptedLineFingerprints
    | PluginUsed(plugin: Option<string>)
    | SkillInvocation(plugin: Option<string>)
    | McpToolCall(plugin: Option<string>)
    | ArtifactOperation(pluginId: string)
    | PluginMeasurement(pluginId: string)
    | OtherEvent(name: string)

  datatype Event = Event(kind: Kind, payload: string)

  predicate Isolated(e: Event) {
    e.kind.AcceptedLineFingerprints?
  }

  predicate ApiKeyMaySend(e: Event) {
    match e.kind
    case PluginUsed(plugin) => plugin.Some?
    case SkillInvocation(plugin) => plugin.Some?
    case McpToolCall(plugin) => plugin.Some?
    case ArtifactOperation(id) => id != ""
    case PluginMeasurement(id) => id != ""
    case _ => false
  }

  type Batch = seq<Event>

  function Flatten(batches: seq<Batch>): seq<Event> {
    if batches == [] then [] else batches[0] + Flatten(batches[1..])
  }

  predicate HasIsolated(b: Batch) {
    exists e :: e in b && Isolated(e)
  }

  /** Isolated events travel alone. */
  ghost predicate ObeysIsolation(batches: seq<Batch>) {
    forall i :: 0 <= i < |batches| && HasIsolated(batches[i]) ==> |batches[i]| == 1
  }

  ghost predicate NoneEmpty(batches: seq<Batch>) {
    forall i :: 0 <= i < |batches| ==> batches[i] != []
  }

  /** No two neighbours could have shared a request. */
  ghost predicate Merged(batches: seq<Batch>) {
    forall i, j :: 0 <= i < |batches| && j == i + 1 < |batches| ==> HasIsolated(batches[i]) || HasIsolated(batches[j])
  }

  ghost predicate GoodSplit(batches: seq<Batch>, events: seq<Event>) {
    Flatten(batches) == events && NoneEmpty(batches) && ObeysIsolation(batches) && Merged(batches)
  }

  lemma {:induction false} FlattenSnoc(batches: seq<Batch>, b: Batch)
    ensures Flatten(batches + [b]) == Flatten(batches) + b
  {
    if batches == [] {
      assert [] + [b] == [b];
      assert Flatten([b]) == b + Flatten([]);
    } else {
      FlattenSnoc(batches[1..], b);
      assert (batches + [b])[1..] == batches[1..] + [b];
      Assoc(batches[0], Flatten(batches[1..]), b);
    }
  }

  lemma IsolatedLeads(b: Batch)
    requires b != [] && (HasIsolated(b) ==> |b| == 1)
    ensures HasIsolated(b) ==> Isolated(b[0])
  {
  }

  /** A leading batch that reaches past the merged one holds an isolated event. */
  lemma ReachingPast(b: seq<Batch>, s: seq<Batch>)
    requires b != [] && s != [] && |s[0]| > |b[0]|
    requires Flatten(b) == Flatten(s) && NoneEmpty(b) && ObeysIsolation(b) && Merged(b)
    ensures HasIsolated(s[0])
  {
    var events := Flatten(b);
    assert events == b[0] + Flatten(b[1..]) && events == s[0] + Flatten(s[1..]);
    assert b[1..] != [];
    assert Flatten(b[1..])[0] == b[1][0];
    assert s[0][|b[0]|] == events[|b[0]|] == b[1][0];
    assert s[0][0] == events[0] == b[0][0];
    IsolatedLeads(b[0]);
    IsolatedLeads(b[1]);
    assert HasIsolated(b[0]) || HasIsolated(b[1]);
    assert s[0][0] in s[0] && s[0][|b[0]|] in s[0];
  }

  /** The leading batch of any split is a prefix of the merged leading batch. */
  lemma LeadingPrefix(b: seq<Batch>, s: seq<Batch>)
    requires b != [] && s != [] && s[0] != []
    requires Flatten(b) == Flatten(s) && NoneEmpty(b) && ObeysIsolation(b) && Merged(b) && ObeysIsolation(s)
    ensures s[0] <= b[0]
  {
    if |s[0]| > |b[0]| {
      ReachingPast(b, s);
      assert false;
    }
    var events := Flatten(b);
    assert events == b[0] + Flatten(b[1..]) && events == s[0] + Flatten(s[1..]);
    assert s[0] == events[..|s[0]|] == b[0][..|s[0]|];
  }

  /** Cutting a prefix off the leading batch keeps the rest of a good split good. */
  lemma CutLeading(b: seq<Batch>, n: nat)
    requires b != [] && NoneEmpty(b) && ObeysIsolation(b) && Merged(b)
    requires 0 < n < |b[0]|
    ensures var rest := [b[0][n..]] + b[1..];
            NoneEmpty(rest) && ObeysIsolation(rest) && Merged(rest) && Flatten(b) == b[0][..n] + Flatten(rest)
  {
    var rest := [b[0][n..]] + b[1..];
    assert !HasIsolated(b[0]);
    assert forall e :: e in b[0][n..] ==> e in b[0];
    assert rest[1..] == b[1..];
    forall i, j | 0 <= i < |rest| && j == i + 1 < |rest| ensures HasIsolated(rest[i]) || HasIsolated(rest[j]) {
      assert rest[j] == b[j];
      assert HasIsolated(b[i]) || HasIsolated(b[j]);
    }
    assert b[0] == b[0][..n] + b[0][n..];
    Assoc(b[0][..n], b[0][n..], Flatten(b[1..]));
  }

  lemma GoodTail(b: seq<Batch>)
    requires b != [] && NoneEmpty(b) && ObeysIsolation(b) && Merged(b)
    ensures NoneEmpty(b[1..]) && ObeysIsolation(b[1..]) && Merged(b[1..])
  {
    var t := b[1..];
    forall i, j | 0 <= i < |t| && j == i + 1 < |t| ensures HasIsolated(t[i]) || HasIsolated(t[j]) {
      assert t[i] == b[i+1] && t[j] == b[j+1];
    }
  }

  /**
   A good split uses the fewest batches of all splits that obey isolation, and is the only
   one with that number.
   */
  lemma {:induction false} FewestBatches(b: seq<Batch>, s: seq<Batch>)
    requires Flatten(b) == Flatten(s) && NoneEmpty(b) && ObeysIsolation(b) && Merged(b)
    requires ObeysIsolation(s)
    ensures |b| <= |s|
    ensures |b| == |s| ==> b == s
    decreases |s|
  {
    assert b != [] ==> Flatten(b) != [];
    if s != [] && b != [] {
      assert ObeysIsolation(s[1..]);
      assert s == [s[0]] + s[1..] && b == [b[0]] + b[1..];
      if s[0] == [] {
        assert Flatten(s) == Flatten(s[1..]);
        FewestBatches(b, s[1..]);
      } else {
        LeadingPrefix(b, s);
        var n := |s[0]|;
        if n == |b[0]| {
          GoodTail(b);
          assert Flatten(b)[n..] == Flatten(b[1..]) && Flatten(s)[n..] == Flatten(s[1..]);
          FewestBatches(b[1..], s[1..]);
        } else {
          CutLeading(b, n);
          var rest := [b[0][n..]] + b[1..];
          assert Flatten(b)[n..] == Flatten(rest) && Flatten(s)[n..] == Flatten(s[1..]);
          FewestBatches(rest, s[1..]);
        }
      }
    }
  }

  /** The open batch counts as a batch once it holds an event. */
  function WithOpen(batches: seq<Batch>, current: Batch): seq<Batch> {
    if current == [] then batches else batches + [current]
  }

  lemma AppendBatch(batches: seq<Batch>, events: seq<Event>, b: Batch)
    requires GoodSplit(batches, events) && b != []
    requires HasIsolated(b) ==> |b| == 1
    requires batches != [] ==> HasIsolated(batches[|batches|-1]) || HasIsolated(b)
    ensures GoodSplit(batches + [b], events + b)
  {
    FlattenSnoc(batches, b);
    var next := batches + [b];
    forall i, j | 0 <= i < |next| && j == i + 1 < |next| ensures HasIsolated(next[i]) || HasIsolated(next[j]) {
      if j < |batches| { assert HasIsolated(batches[i]) || HasIsolated(batches[j]); }
    }
  }

  lemma GrowLast(batches: seq<Batch>, current: Batch, events: seq<Event>, e: Event)
    requires GoodSplit(batches + [current], events) && !HasIsolated(current) && !Isolated(e)
    ensures GoodSplit(batches + [current + [e]], events + [e])
  {
    FlattenSnoc(batches, current);
    FlattenSnoc(batches, current + [e]);
    Assoc(Flatten(batches), current, [e]);
    var all, next := batches + [current], batches + [current + [e]];
    assert !HasIsolated(current + [e]);
    forall i, j | 0 <= i < |next| && j == i + 1 < |next| ensures HasIsolated(next[i]) || HasIsolated(next[j]) {
      assert HasIsolated(all[i]) || HasIsolated(all[j]);
    }
    forall i | 0 <= i < |next| ensures next[i] != [] && (HasIsolated(next[i]) ==> |next[i]| == 1) {
      assert i < |batches| ==> all[i] == next[i];
    }
  }

  /** Between iterations: a good split, whose open batch follows an isolated event or nothing. */
  ghost predicate LoopState(batches: seq<Batch>, current: Batch, events: seq<Event>) {
    && GoodSplit(WithOpen(batches, current), events)
    && !HasIsolated(current)
    && (batches != [] ==> HasIsolated(batches[|batches|-1]))
  }

  lemma IsolatedStep(batches: seq<Batch>, current: Batch, events: seq<Event>, e: Event)
    requires LoopState(batches, current, events) && Isolated(e)
    ensures LoopState(WithOpen(batches, current) + [[e]], [], events + [e])
  {
    assert e in [e];
    AppendBatch(WithOpen(batches, current), events, [e]);
  }

  lemma PlainStep(batches: seq<Batch>, current: Batch, events: seq<Event>, e: Event)
    requires LoopState(batches, current, events) && !Isolated(e)
    ensures LoopState(batches, current + [e], events + [e])
  {
    if current == [] {
      AppendBatch(batches, events, [e]);
      assert current + [e] == [e];
    } else {
      GrowLast(batches, current, events, e);
    }
  }

  /** The batching loop: order and content kept, isolation obeyed, nothing left unmerged. */
  method TrackEventBatches(events: seq<Event>) returns (batches: seq<Batch>)
    ensures GoodSplit(batches, events)
    ensures forall i, k :: 0 <= i < |batches| && 0 <= k < |batches[i]| && batches[i][k].kind == AcceptedLineFingerprints ==>
              batches[i] == [batches[i][k]]
    ensures forall i :: 1 <= i < |batches| ==>
              batches[i-1][0].kind == AcceptedLineFingerprints || batches[i][0].kind == AcceptedLineFingerprints
  {
    batches := [];
    var current: Batch := [];
    for i := 0 to |events|
      invariant LoopState(batches, current, events[..i])
    {
      var e := events[i];
      assert events[..i+1] == events[..i] + [e];
      if Isolated(e) {
        IsolatedStep(batches, current, events[..i], e);
        if current != [] {
          batches := batches + [current];
          current := [];
        }
        batches := batches + [[e]];
      } else {
        PlainStep(batches, current, events[..i], e);
        current := current + [e];
      }
    }
    assert events[..|events|] == events;
    if current != [] {
      batches := batches + [current];
    }
    FingerprintsAlone(batches, events);
  }

  /** A batch with a fingerprint event holds nothing else, and neighbours are split only by one. */
  lemma FingerprintsAlone(batches: seq<Batch>, events: seq<Event>)
    requires GoodSplit(batches, events)
    ensures forall i, k :: 0 <= i < |batches| && 0 <= k < |batches[i]| && batches[i][k].kind == AcceptedLineFingerprints ==>
              batches[i] == [batches[i][k]]
    ensures forall i :: 0 <= i < |batches| ==> batches[i] != []
    ensures forall i :: 1 <= i < |batches| ==>
              batches[i-1][0].kind == AcceptedLineFingerprints || batches[i][0].kind == AcceptedLineFingerprints
  {
    forall i, k | 0 <= i < |batches| && 0 <= k < |batches[i]| && batches[i][k].kind == AcceptedLineFingerprints
      ensures batches[i] == [batches[i][k]]
    {
      assert batches[i][k] in batches[i] && Isolated(batches[i][k]);
    }
    forall i | 1 <= i < |batches|
      ensures batches[i-1][0].kind == AcceptedLineFingerprints || batches[i][0].kind == AcceptedLineFingerprints
    {
      assert HasIsolated(batches[i-1]) || HasIsolated(batches[i]);
      IsolatedLeads(batches[i-1]);
      IsolatedLeads(batches[i]);
    }
  }

  /** Every list of events has a good split. */
  lemma {:induction false} SplitExists(events: seq<Event>) returns (batches: seq<Batch>)
    ensures GoodSplit(batches, events)
  {
    if events == [] {
      batches := [];
    } else {
      var n := |events| - 1;
      var before := SplitExists(events[..n]);
      assert events == events[..n] + [events[n]];
      var k := |before| - 1;
      if before == [] || HasIsolated(before[k]) || Isolated(events[n]) {
        assert events[n] in [events[n]];
        AppendBatch(before, events[..n], [events[n]]);
        batches := before + [[events[n]]];
      } else {
        assert before == before[..k] + [before[k]];
        GrowLast(before[..k], before[k], events[..n], events[n]);
        batches := before[..k] + [before[k] + [events[n]]];
      }
    }
  }

  // ----- Credentials -----

  datatype Auth = NoAuth | ApiKey | Backend | OtherAuth

  /** The events a credential lets through. */
  function Deliverable(auth: Auth, events: seq<Event>): seq<Event> {
    match auth
    case NoAuth => []
    case ApiKey => Filter(events, ApiKeyMaySend)
    case Backend => events
    case OtherAuth => []
  }

  /** The event belongs to a plugin: it carries the plugin's id. */
  ghost predicate NamesPlugin(e: Event) {
    exists id: string ::
      || e.kind == PluginUsed(Some(id)) || e.kind == SkillInvocation(Some(id)) || e.kind == McpToolCall(Some(id))
      || (id != "" && (e.kind == ArtifactOperation(id) || e.kind == PluginMeasurement(id)))
  }

  /** What goes out: everything for the backend's own credential, the plugin events for an API key,
      nothing for any other credential or none. */
  ghost predicate LetThrough(auth: Auth, events: seq<Event>, sent: seq<Event>) {
    && (auth == Backend ==> sent == events)
    && (auth == ApiKey ==> Selects(events, sent, NamesPlugin))
    && (auth == NoAuth || auth == OtherAuth ==> sent == [])
  }

  lemma ApiKeyRule(e: Event)
    ensures ApiKeyMaySend(e) <==> NamesPlugin(e)
  {
    match e.kind {
      case PluginUsed(Some(id)) => assert NamesPlugin(e);
      case SkillInvocation(Some(id)) => assert NamesPlugin(e);
      case McpToolCall(Some(id)) => assert NamesPlugin(e);
      case ArtifactOperation(id) => assert id != "" ==> NamesPlugin(e);
      case PluginMeasurement(id) => assert id != "" ==> NamesPlugin(e);
      case _ =>
    }
  }

  lemma DeliverableIs(auth: Auth, events: seq<Event>)
    ensures LetThrough(auth, events, Deliverable(auth, events))
  {
    if auth == ApiKey {
      FilterSelects(events, ApiKeyMaySend);
      forall e ensures ApiKeyMaySend(e) <==> NamesPlugin(e) { ApiKeyRule(e); }
    }
  }

  /** Without isolated events one request is enough. */
  lemma {:induction false} OneBatch(batches: seq<Batch>, events: seq<Event>)
    requires GoodSplit(batches, events) && !HasIsolated(events)
    ensures |batches| <= 1
  {
    assert Flatten([events]) == events + Flatten([]);
    FewestBatches(batches, [events]);
  }

  /** The requests made for one list of events; an API key never needs more than one. */
  method SendTrackEvents(auth: Auth, events: seq<Event>) returns (requests: seq<Batch>)
    ensures GoodSplit(requests, Deliverable(auth, events))
    ensures LetThrough(auth, events, Flatten(requests))
    ensures auth == NoAuth || auth == OtherAuth ==> requests == []
    ensures auth == ApiKey ==> |requests| <= 1
  {
    DeliverableIs(auth, events);
    if events == [] || auth == NoAuth {
      return [];
    }
    var kept := events;
    if auth == ApiKey {
      kept := Filter(events, ApiKeyMaySend);
    } else if auth != Backend {
      return [];
    }
    if kept == [] {
      return [];
    }
    requests := TrackEventBatches(kept);
    if auth == ApiKey {
      OneBatch(requests, kept);
    }
  }
}
