/** The read path of the HTTP front-end (`getHandler` in cmd/kvapi): a relaxed
    read from the local store, or a linearizable read through the replication
    engine, followed by a loop that writes the value to the response. */
module KvApiHttp {

  import opened GoBytes
  import opened Wrappers
  import opened KvApiCodec
  import KvApiStateMachine

  /** Errors of the replication engine, which is not part of this model:
      "apply must go through the leader", or any other failure. */
  datatype EngineError = NotLeader | EngineFailure(code: nat)

  /** `protoraft.ApplyResult`: what the state machine answered for one
      command of a batch. */
  datatype ApplyResult = ApplyResult(result: GoString, error: Option<KvApiStateMachine.Error>)

  /** What the engine's `Apply` returns for a batch: per-command results, or
      an error. */
  datatype EngineReply = EngineReply(results: seq<ApplyResult>, err: Option<EngineError>)

  /** Why a read fails: the relaxed path's "key not found", an engine error,
      a result count other than one ("Expected single response from raft"),
      or the error the state machine returned for the Get. */
  datatype ReadError =
    | LocalKeyNotFound
    | Engine(cause: EngineError)
    | ResultCount(got: nat)
    | Applied(applyError: KvApiStateMachine.Error)

  /** The batch the linearizable path submits: one Get of `key`, built with
      an empty value. The engine's state machines decode it back to exactly
      that command. */
  function GetBatch(key: GoString): (batch: seq<seq<byte>>)
    requires |key| < Uint64Bound
    ensures |batch| == 1
    ensures DecodeCommand(batch[0]) == Decoded(Command(GetCommand, key, []))
  {
    RoundTrip(Command(GetCommand, key, []));
    [EncodeCommand(Command(GetCommand, key, []))]
  }

  /** The value `getHandler` answers with, or the error it reports. The
      relaxed path reads the local store `db` and never calls the engine;
      the linearizable path calls `apply` with `GetBatch(key)` and then checks
      the engine error, the result count and the per-result error, in that
      order. */
  function ReadValue(key: GoString, relaxed: bool, db: map<GoString, GoString>,
                     apply: seq<seq<byte>> -> EngineReply): (r: Result<GoString, ReadError>)
    requires |key| < Uint64Bound
    ensures relaxed ==> (r.Ok? <==> key in db) && (r.Ok? ==> r.value == db[key])
    ensures relaxed && r.Err? ==> r.error == LocalKeyNotFound
    ensures !relaxed ==> var reply := apply(GetBatch(key));
      (reply.err.Some? ==> r == Err(Engine(reply.err.value))) &&
      (reply.err.None? && |reply.results| != 1 ==> r == Err(ResultCount(|reply.results|))) &&
      (reply.err.None? && |reply.results| == 1 && reply.results[0].error.Some? ==>
         r == Err(Applied(reply.results[0].error.value))) &&
      (r.Ok? <==> reply.err.None? && |reply.results| == 1 && reply.results[0].error.None?) &&
      (r.Ok? ==> r.value == reply.results[0].result)
  {
    if relaxed then
      if key in db then Ok(db[key]) else Err(LocalKeyNotFound)
    else
      var reply := apply(GetBatch(key));
      if reply.err.Some? then Err(Engine(reply.err.value))
      else if |reply.results| != 1 then Err(ResultCount(|reply.results|))
      else if reply.results[0].error.Some? then Err(Applied(reply.results[0].error.value))
      else Ok(reply.results[0].result)
  }

  /** An engine that commits the batch and applies its one command to a
      state machine whose store is `db`. */
  predicate CommitsOn(apply: seq<seq<byte>> -> EngineReply, key: GoString, db: map<GoString, GoString>)
    requires |key| < Uint64Bound
  {
    var t := KvApiStateMachine.Step(db, GetBatch(key)[0]);
    t.out.Returned? && apply(GetBatch(key)) == EngineReply([ApplyResult(t.out.result, t.out.err)], None)
  }

  /** The two read modes agree on a store both can see: when the engine
      commits the Get and applies it to a state machine whose store is `db`,
      a linearizable read finds exactly what a relaxed read of `db` finds,
      and both fail on a missing key (with their own not-found errors). */
  lemma LinearizableMatchesRelaxed(key: GoString, db: map<GoString, GoString>,
                                   apply: seq<seq<byte>> -> EngineReply)
    requires |key| < Uint64Bound
    requires CommitsOn(apply, key, db)
    ensures var lin := ReadValue(key, false, map[], apply);
            var rel := ReadValue(key, true, db, apply);
      lin == rel || (lin == Err(Applied(KvApiStateMachine.KeyNotFound)) && rel == Err(LocalKeyNotFound))
  {
    KvApiStateMachine.ApplyGet(db, key, []);
  }

  /** The response as `getHandler` leaves it: the value was written, or
      `http.Error` was called because the read failed or the transport did. */
  datatype Response = Served | ReadFailed(e: ReadError) | WriteFailed

  /** The HTTP response writer. `Write` may accept any prefix of what it is
      given, and may fail; a call that does not fail accepts at least one
      byte of a non-empty buffer. `failures` counts the calls that failed. */
  class ResponseWriter {
    /** The bytes the client has been sent so far. */
    var body: seq<byte>
    ghost var failures: nat

    constructor ()
      ensures body == [] && failures == 0
    {
      body := [];
      failures := 0;
    }

    method Write(p: seq<byte>) returns (n: nat, failed: bool)
      modifies this
      ensures n <= |p| && body == old(body) + p[..n]
      ensures !failed && |p| > 0 ==> 0 < n
      ensures failures == old(failures) + (if failed then 1 else 0)
    {
      failed :| true;
      n :| n <= |p| && (!failed && |p| > 0 ==> 0 < n);
      body := body + p[..n];
      if failed {
        failures := failures + 1;
      }
    }
  }

  /** The write loop of `getHandler`: write what is left of `value`, partial
      writes included, until all of it is out or the writer fails. It gives
      up exactly when a `Write` fails, after the first failure; on success the
      body grew by exactly `value`, on failure by a prefix of it. */
  method WriteAll(w: ResponseWriter, value: seq<byte>) returns (ok: bool)
    modifies w
    ensures ok <==> w.failures == old(w.failures)
    ensures !ok ==> w.failures == old(w.failures) + 1
    ensures ok ==> w.body == old(w.body) + value
    ensures !ok ==> old(w.body) <= w.body && w.body[|old(w.body)|..] <= value
  {
    var written := 0;
    while written < |value|
      invariant written <= |value|
      invariant w.body == old(w.body) + value[..written]
      invariant w.failures == old(w.failures)
      decreases |value| - written
    {
      var n, failed := w.Write(value[written..]);
      if failed {
        assert w.body[|old(w.body)|..] == value[..written + n];
        return false;
      }
      written := written + n;
    }
    ok := true;
  }

  /** The bytes of "true", the value of `relaxed` that selects a relaxed read. */
  const TrueParam: GoString := [0x74, 0x72, 0x75, 0x65]

  /** `getHandler`. `relaxedParam` is the `relaxed` query parameter. When
      the read fails none of the value is written; otherwise the value is
      written, in full unless a `Write` fails. */
  method GetHandler(key: GoString, relaxedParam: GoString, db: map<GoString, GoString>,
                    apply: seq<seq<byte>> -> EngineReply, w: ResponseWriter)
    returns (resp: Response)
    requires |key| < Uint64Bound
    modifies w
    ensures var r := ReadValue(key, relaxedParam == TrueParam, db, apply);
      match r
      case Err(e) => resp == ReadFailed(e) && w.body == old(w.body) && w.failures == old(w.failures)
      case Ok(value) =>
        && (resp == Served || resp == WriteFailed)
        && (resp == Served <==> w.failures == old(w.failures))
        && (resp == Served ==> w.body == old(w.body) + value)
        && (resp == WriteFailed <==> w.failures == old(w.failures) + 1)
        && (resp == WriteFailed ==> old(w.body) <= w.body && w.body[|old(w.body)|..] <= value)
  {
    var r := ReadValue(key, relaxedParam == TrueParam, db, apply);
    if r.Err? {
      return ReadFailed(r.error);
    }
    var ok := WriteAll(w, r.value);
    resp := if ok then Served else WriteFailed;
  }
}
