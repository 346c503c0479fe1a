/** The bounded sets that keep used-app and used-plugin events from being sent twice. */
module Dedupe {
  import opened Wrappers
  import opened Orders

  const MAX_KEYS: nat := 4096

  /** A turn id and the app or plugin used in it. */
  type Key = (string, string)

  /** The set after a call, and the answer. */
  datatype Outcome = Outcome(keys: set<Key>, send: bool, cleared: bool)

  function Forget(keys: set<Key>): set<Key> {
    if |keys| >= MAX_KEYS then {} else keys
  }

  /**
   One call on a dedupe set. A call without a key is always answered yes; the plugin
   variant (`eager`) clears a full set even then, the app variant only for a keyed call.
   */
  function Step(eager: bool, keys: set<Key>, key: Option<Key>): Outcome {
    if key.None? then Outcome(if eager then Forget(keys) else keys, true, eager && |keys| >= MAX_KEYS)
    else Outcome(Forget(keys) + {key.value}, key.value !in Forget(keys), |keys| >= MAX_KEYS)
  }

  // ----- Runs -----

  /** The set after a whole run of calls. */
  function Keys(eager: bool, calls: seq<Option<Key>>): set<Key> {
    if calls == [] then {} else Step(eager, Keys(eager, calls[..|calls|-1]), calls[|calls|-1]).keys
  }

  /** The outcome of the `i`-th call. */
  function At(eager: bool, calls: seq<Option<Key>>, i: nat): Outcome
    requires i < |calls|
  {
    Step(eager, Keys(eager, calls[..i]), calls[i])
  }

  function Clears(eager: bool, calls: seq<Option<Key>>): nat {
    if calls == [] then 0
    else
      var n := |calls| - 1;
      Clears(eager, calls[..n]) + if At(eager, calls, n).cleared then 1 else 0
  }

  /** Keyed calls answered yes. */
  function Sent(eager: bool, calls: seq<Option<Key>>): nat {
    if calls == [] then 0
    else
      var n := |calls| - 1;
      Sent(eager, calls[..n]) + if calls[n].Some? && At(eager, calls, n).send then 1 else 0
  }

  /** How often the key was answered yes. */
  function SentFor(eager: bool, calls: seq<Option<Key>>, k: Key): nat {
    if calls == [] then 0
    else
      var n := |calls| - 1;
      SentFor(eager, calls[..n], k) + if calls[n] == Some(k) && At(eager, calls, n).send then 1 else 0
  }

  function AllKeys(calls: seq<Option<Key>>): set<Key> {
    set c | c in calls && c.Some? :: c.value
  }

  /** The set never outgrows its bound, and clears account exactly for what it forgot. */
  lemma {:induction false} Accounting(eager: bool, calls: seq<Option<Key>>)
    ensures |Keys(eager, calls)| <= 4096
    ensures 4096 * Clears(eager, calls) + |Keys(eager, calls)| == Sent(eager, calls)
  {
    if calls != [] {
      var n := |calls| - 1;
      Accounting(eager, calls[..n]);
      var left := Forget(Keys(eager, calls[..n]));
      if calls[n].Some? && calls[n].value in left {
        assert left + {calls[n].value} == left;
      }
    }
  }

  lemma {:induction false} SentOncePerEpoch(eager: bool, calls: seq<Option<Key>>, k: Key)
    ensures SentFor(eager, calls, k) <= Clears(eager, calls) + if k in Keys(eager, calls) then 1 else 0
  {
    if calls != [] {
      SentOncePerEpoch(eager, calls[..|calls|-1], k);
    }
  }

  /** A key is let through at most once, plus once for every 4096 keys let through. */
  lemma {:induction false} RepeatBound(eager: bool, calls: seq<Option<Key>>, k: Key)
    ensures SentFor(eager, calls, k) <= 1 + Sent(eager, calls) / 4096
  {
    Accounting(eager, calls);
    SentOncePerEpoch(eager, calls, k);
  }

  lemma AllKeysSnoc(calls: seq<Option<Key>>)
    requires calls != []
    ensures var n := |calls| - 1;
            AllKeys(calls) == AllKeys(calls[..n]) + if calls[n].Some? then {calls[n].value} else {}
  {
    var n := |calls| - 1;
    assert calls == calls[..n] + [calls[n]];
  }

  lemma FewerBefore(calls: seq<Option<Key>>)
    ensures calls != [] ==> |AllKeys(calls[..|calls|-1])| <= |AllKeys(calls)|
  {
    if calls != [] {
      AllKeysSnoc(calls);
      SubsetSize(AllKeys(calls[..|calls|-1]), AllKeys(calls));
    }
  }

  /** Until the set is full it is the set of all keys seen. */
  lemma {:induction false} NothingForgotten(eager: bool, calls: seq<Option<Key>>)
    requires calls != [] ==> |AllKeys(calls[..|calls|-1])| < MAX_KEYS
    ensures Keys(eager, calls) == AllKeys(calls)
  {
    if calls != [] {
      var before := calls[..|calls|-1];
      AllKeysSnoc(calls);
      FewerBefore(before);
      NothingForgotten(eager, before);
    }
  }

  /** While fewer than 4096 distinct keys came before, a call is answered as by an unbounded set. */
  lemma {:induction false} ExactWhileSmall(eager: bool, calls: seq<Option<Key>>, i: nat)
    requires i < |calls| && |AllKeys(calls[..i])| < 4096
    ensures At(eager, calls, i).send <==> calls[i].None? || calls[i].value !in AllKeys(calls[..i])
    ensures !At(eager, calls, i).cleared
  {
    var before := calls[..i];
    FewerBefore(before);
    NothingForgotten(eager, before);
  }

  /** The bound is tight: right after the 4096th distinct key, every key is let through again. */
  lemma {:induction false} ForgetsWhenFull(eager: bool, calls: seq<Option<Key>>, k: Key)
    requires calls != [] && |AllKeys(calls[..|calls|-1])| < 4096 && |AllKeys(calls)| == 4096
    ensures At(eager, calls + [Some(k)], |calls|).send && At(eager, calls + [Some(k)], |calls|).cleared
    ensures k in AllKeys(calls) ==> SentFor(eager, calls + [Some(k)], k) == SentFor(eager, calls, k) + 1
  {
    NothingForgotten(eager, calls);
    var next := calls + [Some(k)];
    assert next[..|calls|] == calls;
  }

  // ----- The exact rule over every run -----

  /** Where the present epoch starts: at the last call that cleared the set. */
  function Epoch(eager: bool, calls: seq<Option<Key>>): (start: nat)
    ensures start <= |calls|
  {
    if calls == [] then 0
    else
      var n := |calls| - 1;
      if At(eager, calls, n).cleared then n else Epoch(eager, calls[..n])
  }

  lemma AllKeysSince(calls: seq<Option<Key>>, start: nat)
    requires start < |calls|
    ensures var n := |calls| - 1;
            AllKeys(calls[start..]) == AllKeys(calls[..n][start..]) + if calls[n].Some? then {calls[n].value} else {}
  {
    var n := |calls| - 1;
    AllKeysSnoc(calls[start..]);
    assert calls[start..][..n - start] == calls[..n][start..];
  }

  /** The set holds exactly the keys of the calls since it was last cleared. */
  lemma {:induction false} KeysSinceClear(eager: bool, calls: seq<Option<Key>>)
    ensures Keys(eager, calls) == AllKeys(calls[Epoch(eager, calls)..])
  {
    if calls != [] {
      var n, start := |calls| - 1, Epoch(eager, calls);
      KeysSinceClear(eager, calls[..n]);
      AllKeysSince(calls, start);
      assert calls[..n][n..] == [];
    }
  }

  /**
   Every answer of every run: a call clears the set if and only if 4096 distinct keys came since
   the last clearing and the call has a key or is of the plugin kind. A key is let through if and
   only if the call clears or the key did not come since then.
   */
  lemma {:induction false} ExactOverRuns(eager: bool, calls: seq<Option<Key>>, i: nat)
    requires i < |calls|
    ensures var since := AllKeys(calls[Epoch(eager, calls[..i])..i]);
            && |since| <= 4096
            && (At(eager, calls, i).cleared <==> |since| == 4096 && (eager || calls[i].Some?))
            && (At(eager, calls, i).send <==>
                  calls[i].None? || At(eager, calls, i).cleared || calls[i].value !in since)
  {
    var before := calls[..i];
    KeysSinceClear(eager, before);
    Accounting(eager, before);
    assert before[Epoch(eager, before)..] == calls[Epoch(eager, before)..i];
  }

  // ----- The queue's two sets -----

  class EmittedKeys {
    var apps: set<Key>
    var plugins: set<Key>

    constructor ()
      ensures apps == {} && plugins == {}
    {
      apps, plugins := {}, {};
    }

    method ShouldEnqueueAppUsed(turn: string, connector: Option<string>) returns (send: bool)
      modifies this`apps
      ensures var out := Step(false, old(apps), if connector.Some? then Some((turn, connector.value)) else None);
              apps == out.keys && send == out.send
    {
      if connector.None? {
        return true;
      }
      if |apps| >= MAX_KEYS {
        apps := {};
      }
      send := (turn, connector.value) !in apps;
      apps := apps + {(turn, connector.value)};
    }

    /** The plugin is known by its own id, or else by its remote id. */
    method ShouldEnqueuePluginUsed(turn: string, pluginId: Option<string>, remoteId: Option<string>) returns (send: bool)
      modifies this`plugins
      ensures var id := pluginId.Or(remoteId);
              var out := Step(true, old(plugins), if id.Some? then Some((turn, id.value)) else None);
              plugins == out.keys && send == out.send
    {
      if |plugins| >= MAX_KEYS {
        plugins := {};
      }
      var id := pluginId.Or(remoteId);
      if id.None? {
        return true;
      }
      send := (turn, id.value) !in plugins;
      plugins := plugins + {(turn, id.value)};
    }
  }
}
