/** The parts of the stress harness (cmd/stress `main`) that compute rather
    than wait: cutting the workload into batches, and checking every state
    machine against the Set entries once the cluster has applied them. */
module StressHarness {

  import opened GoBytes
  import opened Wrappers
  import opened StressCodec
  import opened StressStateMachine

  /** The concatenation of a sequence of batches. */
  function Concat<T>(batches: seq<seq<T>>): seq<T>
  {
    if batches == [] then [] else Concat(batches[..|batches| - 1]) + batches[|batches| - 1]
  }

  lemma ConcatAppend<T>(batches: seq<seq<T>>, batch: seq<T>)
    ensures Concat(batches + [batch]) == Concat(batches) + batch
  {
    assert (batches + [batch])[..|batches|] == batches;
  }

  /** The batch loop of each client: `i` runs from 0 in steps of
      `batchSize`, and each batch is `allEntries[i:end]` with `end` clamped
      to the number of entries. The batches are non-empty, all but the last
      are exactly `batchSize` long, and together they are `allEntries`, in
      order. */
  method SplitBatches<T>(allEntries: seq<T>, batchSize: nat) returns (batches: seq<seq<T>>)
    requires batchSize > 0
    ensures forall j :: 0 <= j < |batches| ==> 0 < |batches[j]| <= batchSize
    ensures forall j :: 0 <= j < |batches| - 1 ==> |batches[j]| == batchSize
    ensures Concat(batches) == allEntries
  {
    batches := [];
    var i := 0;
    while i < |allEntries|
      invariant 0 <= i
      invariant Concat(batches) == allEntries[..if i < |allEntries| then i else |allEntries|]
      invariant forall j :: 0 <= j < |batches| ==> 0 < |batches[j]| <= batchSize
      invariant forall j :: 0 <= j < |batches| - 1 ==> |batches[j]| == batchSize
      invariant i <= |allEntries| ==> forall j :: 0 <= j < |batches| ==> |batches[j]| == batchSize
      decreases |allEntries| - i
    {
      var end := i + batchSize;
      if end > |allEntries| {
        end := |allEntries|;
      }
      var batch := allEntries[i..end];
      ConcatAppend(batches, batch);
      assert allEntries[..end] == allEntries[..i] + batch;
      batches := batches + [batch];
      i := i + batchSize;
    }
  }

  /** What the harness reads from an entry with
      `_, key, value := decodeKvsmMessage_Set(entry)`: the key and value, an
      empty pair when the entry is not a Set, or nothing when decoding
      panics. */
  function EntryFields(entry: seq<byte>): (r: Option<(GoString, GoString)>)
    ensures r.None? <==> DecodeSet(entry).OutOfRange?
  {
    match DecodeSet(entry)
    case OutOfRange => None
    case NoMatch => Some(([], []))
    case Match(p) => Some(p)
  }

  /** The assertion the harness makes for one entry and one node:
      `value == sm.kv[key]`. An entry that is not a Set is read as the
      empty pair, so it passes exactly when the node maps "" to "" or not
      at all. */
  function EntryHeld(entry: seq<byte>, kv: map<GoString, GoString>): (held: bool)
    ensures held ==> !DecodeSet(entry).OutOfRange?
    ensures DecodeSet(entry).NoMatch? ==> (held <==> [] !in kv || kv[[]] == [])
  {
    var f := EntryFields(entry);
    f.Some? && Lookup(kv, f.value.0) == f.value.1
  }

  /** For an encoded Set entry the assertion checks exactly that the node
      maps the entry's key to its value. */
  lemma SetEntryHeld(key: GoString, value: GoString, kv: map<GoString, GoString>)
    requires |key| < Uint64Bound && |value| < Uint64Bound
    ensures EntryHeld(EncodeSet(key, value), kv) <==> (key in kv && kv[key] == value) || (key !in kv && value == [])
  {
    RoundTrip(key, value);
  }

  /** The harness's check on one node: every entry's value is what the node
      holds for its key. */
  predicate EveryEntryHeld(entries: seq<seq<byte>>, kv: map<GoString, GoString>)
  {
    forall j :: 0 <= j < |entries| ==> EntryHeld(entries[j], kv)
  }

  /** How the validation loop ends: every assertion held, an assertion
      failed for one entry on one node, or decoding one entry panicked. */
  datatype Verdict = UpToDate | Stale(entry: nat, server: nat) | DecodePanic(entry: nat)

  /** The inner loop of the validation: assert on every node, in order,
      that it holds `value` for `key`; the index of the first node that does
      not, where the Go `Assert` aborts, if any. */
  method CheckNodes(key: GoString, value: GoString, sms: seq<KvStateMachine>) returns (stale: Option<nat>)
    ensures stale.None? <==> forall i :: 0 <= i < |sms| ==> Lookup(sms[i].kv, key) == value
    ensures stale.Some? ==> stale.value < |sms| && Lookup(sms[stale.value].kv, key) != value
    ensures stale.Some? ==> forall i' :: 0 <= i' < stale.value ==> Lookup(sms[i'].kv, key) == value
  {
    var i := 0;
    while i < |sms|
      invariant i <= |sms|
      invariant forall i' :: 0 <= i' < i ==> Lookup(sms[i'].kv, key) == value
    {
      if value != Lookup(sms[i].kv, key) {
        return Some(i);
      }
      i := i + 1;
    }
    stale := None;
  }

  /** The state-machine validation loop: for each entry in order, decode it,
      then assert on every node that the node holds the entry's value. It
      stops at the first failure in entry-then-node order, and the verdict
      names it. */
  method ValidateStateMachines(allEntries: seq<seq<byte>>, sms: seq<KvStateMachine>) returns (v: Verdict)
    ensures v == UpToDate <==>
      && (forall j :: 0 <= j < |allEntries| ==> EntryFields(allEntries[j]).Some?)
      && (forall i :: 0 <= i < |sms| ==> EveryEntryHeld(allEntries, sms[i].kv))
    ensures v.Stale? ==>
      && v.entry < |allEntries| && v.server < |sms|
      && EntryFields(allEntries[v.entry]).Some? && !EntryHeld(allEntries[v.entry], sms[v.server].kv)
    ensures v.DecodePanic? ==> v.entry < |allEntries| && EntryFields(allEntries[v.entry]).None?
    ensures !v.UpToDate? ==> forall j' :: 0 <= j' < v.entry ==>
      EntryFields(allEntries[j']).Some? && forall i :: 0 <= i < |sms| ==> EntryHeld(allEntries[j'], sms[i].kv)
    ensures v.Stale? ==> forall i' :: 0 <= i' < v.server ==> EntryHeld(allEntries[v.entry], sms[i'].kv)
  {
    var j := 0;
    while j < |allEntries|
      invariant j <= |allEntries|
      invariant forall j' :: 0 <= j' < j ==> EntryFields(allEntries[j']).Some?
      invariant forall i, j' :: 0 <= i < |sms| && 0 <= j' < j ==> EntryHeld(allEntries[j'], sms[i].kv)
    {
      var fields := EntryFields(allEntries[j]);
      if fields.None? {
        return DecodePanic(j);
      }
      var stale := CheckNodes(fields.value.0, fields.value.1, sms);
      if stale.Some? {
        return Stale(j, stale.value);
      }
      j := j + 1;
    }
    v := UpToDate;
  }

  /** An entry that decodes as a Set. */
  predicate IsSetEntry(entry: seq<byte>)
  {
    DecodeSet(entry).Match?
  }

  function KeyOf(entry: seq<byte>): GoString
  {
    if IsSetEntry(entry) then DecodeSet(entry).value.0 else []
  }

  function ValueOf(entry: seq<byte>): GoString
  {
    if IsSetEntry(entry) then DecodeSet(entry).value.1 else []
  }

  /** The map a state machine holds after applying `log` in order, starting
      from `kv`. */
  function Replay(kv: map<GoString, GoString>, log: seq<seq<byte>>): map<GoString, GoString>
  {
    if log == [] then kv else Step(Replay(kv, log[..|log| - 1]), log[|log| - 1]).kv
  }

  /** A Set entry stores its key and value. */
  lemma StepSetEntry(kv: map<GoString, GoString>, entry: seq<byte>)
    requires IsSetEntry(entry)
    ensures Step(kv, entry).kv == kv[KeyOf(entry) := ValueOf(entry)]
  {
  }

  /** Replaying a log that ends in a Set entry stores that entry last. */
  lemma ReplaySetLast(kv: map<GoString, GoString>, log: seq<seq<byte>>)
    requires log != [] && IsSetEntry(log[|log| - 1])
    ensures Replay(kv, log) == Replay(kv, log[..|log| - 1])[KeyOf(log[|log| - 1]) := ValueOf(log[|log| - 1])]
  {
    StepSetEntry(Replay(kv, log[..|log| - 1]), log[|log| - 1]);
  }

  /** No later entry sets the key of entry `j` again. */
  predicate IsLastWrite(entries: seq<seq<byte>>, j: nat)
    requires j < |entries|
  {
    forall j' :: j < j' < |entries| ==> KeyOf(entries[j']) != KeyOf(entries[j])
  }

  /** The check the harness evidently means: every key holds the value of
      its LAST Set. */
  predicate LastWritesHeld(entries: seq<seq<byte>>, kv: map<GoString, GoString>)
  {
    forall j :: 0 <= j < |entries| && IsLastWrite(entries, j) ==> Lookup(kv, KeyOf(entries[j])) == ValueOf(entries[j])
  }

  /** Replaying Set entries in order leaves each key holding the value of
      its last Set (later Sets of a key win). */
  lemma {:induction false} ReplayHoldsLastWrites(entries: seq<seq<byte>>)
    requires forall j :: 0 <= j < |entries| ==> IsSetEntry(entries[j])
    ensures LastWritesHeld(entries, Replay(map[], entries))
  {
    if entries != [] {
      var n := |entries| - 1;
      var prefix := entries[..n];
      var before := Replay(map[], prefix);
      var after := Replay(map[], entries);
      ReplayHoldsLastWrites(prefix);
      ReplaySetLast(map[], entries);
      forall j | 0 <= j < |entries| && IsLastWrite(entries, j)
        ensures Lookup(after, KeyOf(entries[j])) == ValueOf(entries[j])
      {
        if j < n {
          LastWriteOfPrefix(entries, j);
          assert prefix[j] == entries[j];
          assert Lookup(before, KeyOf(prefix[j])) == ValueOf(prefix[j]);
        }
      }
    }
  }

  /** A last write before the final entry is a last write of the prefix
      without it, and the final entry sets a different key. */
  lemma LastWriteOfPrefix(entries: seq<seq<byte>>, j: nat)
    requires j < |entries| - 1 && IsLastWrite(entries, j)
    ensures IsLastWrite(entries[..|entries| - 1], j)
    ensures KeyOf(entries[|entries| - 1]) != KeyOf(entries[j])
  {
    var prefix := entries[..|entries| - 1];
    forall j' | j < j' < |prefix| ensures KeyOf(prefix[j']) != KeyOf(prefix[j]) {
      assert prefix[j'] == entries[j'] && prefix[j] == entries[j];
    }
  }

  /** Keys set at most once each. */
  predicate DistinctKeys(entries: seq<seq<byte>>)
  {
    forall j, j' :: 0 <= j < j' < |entries| ==> KeyOf(entries[j]) != KeyOf(entries[j'])
  }

  /** With distinct keys the harness's check is the intended one, so a node
      that replayed the Set entries passes it. */
  lemma DistinctKeysPass(entries: seq<seq<byte>>)
    requires forall j :: 0 <= j < |entries| ==> IsSetEntry(entries[j])
    requires DistinctKeys(entries)
    ensures EveryEntryHeld(entries, Replay(map[], entries))
  {
    ReplayHoldsLastWrites(entries);
    var kv := Replay(map[], entries);
    forall j | 0 <= j < |entries| ensures EntryHeld(entries[j], kv) {
      assert IsLastWrite(entries, j);
    }
  }

  /** The harness's check as written fails on a correct node when a key is
      set twice: the first entry's value has been overwritten. */
  lemma RepeatedKeyFailsCheck(key: GoString, first: GoString, second: GoString)
    requires |key| < Uint64Bound && |first| < Uint64Bound && |second| < Uint64Bound
    requires first != second
    ensures var entries := [EncodeSet(key, first), EncodeSet(key, second)];
      && LastWritesHeld(entries, Replay(map[], entries))
      && !EveryEntryHeld(entries, Replay(map[], entries))
  {
    var entries := [EncodeSet(key, first), EncodeSet(key, second)];
    RoundTrip(key, first);
    RoundTrip(key, second);
    ReplayHoldsLastWrites(entries);
    assert entries[..1] == [entries[0]] && entries[..1][..0] == [];
    var kv1 := Replay(map[], entries[..1]);
    assert kv1 == Step(Replay(map[], []), entries[0]).kv;
    StepSetEntry(map[], entries[0]);
    assert kv1 == map[][key := first];
    StepSetEntry(kv1, entries[1]);
    var kv := Replay(map[], entries);
    assert kv == kv1[key := second];
    assert !EntryHeld(entries[0], kv);
  }
}
