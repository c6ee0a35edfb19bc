/** The key-value state machine of the HTTP front-end (cmd/kvapi): it decodes
    a command, stores a Set, answers a Get from its store, and rejects any
    other kind. */
module KvApiStateMachine {

  import opened GoBytes
  import opened Wrappers
  import opened KvApiCodec

  /** The errors `Apply` returns: "Key not found", and "Unknown Command" for
      a kind that is neither Set nor Get. */
  datatype Error = KeyNotFound | UnknownCommand(kind: CommandKind)

  /** What `Apply` does with one message: it returns a result and an error,
      or it panics because decoding ran past the end of the message. */
  datatype Outcome = Returned(result: GoString, err: Option<Error>) | Panicked

  /** The outcome of one message and the store after it. */
  datatype Transition = Transition(out: Outcome, db: map<GoString, GoString>)

  /** `StateMachine.Apply`, as a function of the store before the call. */
  function Step(db: map<GoString, GoString>, msg: seq<byte>): (t: Transition)
    ensures t.out.Panicked? || t.out.err.Some? ==> t.db == db
    ensures t.db != db ==> t.out == Returned([], None)
    ensures db.Keys <= t.db.Keys
  {
    match DecodeCommand(msg)
    case OutOfRange => Transition(Panicked, db)
    case Decoded(c) =>
      if c.kind == SetCommand then Transition(Returned([], None), db[c.key := c.value])
      else if c.kind == GetCommand then
        if c.key in db then Transition(Returned(db[c.key], None), db)
        else Transition(Returned([], Some(KeyNotFound)), db)
      else Transition(Returned([], Some(UnknownCommand(c.kind))), db)
  }

  /** A Set stores its pair, returns neither result nor error, and leaves
      every other key as it was. */
  lemma ApplySet(db: map<GoString, GoString>, key: GoString, value: GoString)
    requires Encodable(Command(SetCommand, key, value))
    ensures Step(db, EncodeCommand(Command(SetCommand, key, value))).out == Returned([], None)
    ensures var db' := Step(db, EncodeCommand(Command(SetCommand, key, value))).db;
      key in db' && db'[key] == value &&
      forall k :: k != key ==> (k in db' <==> k in db) && (k in db ==> db'[k] == db[k])
  {
    RoundTrip(Command(SetCommand, key, value));
  }

  /** A Get answers the stored value, or "Key not found" when the key is
      absent, and never changes the store. Whatever value the Get was built
      with is ignored. */
  lemma ApplyGet(db: map<GoString, GoString>, key: GoString, value: GoString)
    requires Encodable(Command(GetCommand, key, value))
    ensures var t := Step(db, EncodeCommand(Command(GetCommand, key, value)));
      t.db == db &&
      t.out == if key in db then Returned(db[key], None) else Returned([], Some(KeyNotFound))
  {
    RoundTrip(Command(GetCommand, key, value));
  }

  /** Any kind other than Set and Get is answered with an error and leaves
      the store unchanged. */
  lemma ApplyUnknown(db: map<GoString, GoString>, c: Command)
    requires Encodable(c) && c.kind != SetCommand && c.kind != GetCommand
    ensures var t := Step(db, EncodeCommand(c));
      t.db == db && t.out == Returned([], Some(UnknownCommand(c.kind)))
  {
    RoundTrip(c);
  }

  /** A message the codec cannot decode panics and leaves the store as it was. */
  lemma ApplyTruncated(db: map<GoString, GoString>, c: Command, msg: seq<byte>)
    requires Encodable(c) && c.kind == SetCommand && msg < EncodeCommand(c)
    ensures Step(db, msg) == Transition(Panicked, db)
  {
    TruncatedSetRejected(c, msg);
  }

  /** The outcomes of a batch of messages applied in order, and the store
      after the last one. */
  function ApplyAll(db: map<GoString, GoString>, msgs: seq<seq<byte>>): (r: (seq<Outcome>, map<GoString, GoString>))
    ensures |r.0| == |msgs|
    decreases |msgs|
  {
    if msgs == [] then ([], db)
    else
      var t := Step(db, msgs[0]);
      var rest := ApplyAll(t.db, msgs[1..]);
      ([t.out] + rest.0, rest.1)
  }

  /** Last write wins: after two Sets of one key, a Get answers the second
      value, and the outcomes come back in submission order. */
  lemma LastWriteWins(db: map<GoString, GoString>, key: GoString, first: GoString, second: GoString)
    requires Encodable(Command(SetCommand, key, first)) && Encodable(Command(SetCommand, key, second))
    ensures var msgs := [EncodeCommand(Command(SetCommand, key, first)),
                         EncodeCommand(Command(SetCommand, key, second)),
                         EncodeCommand(Command(GetCommand, key, []))];
      ApplyAll(db, msgs).0 == [Returned([], None), Returned([], None), Returned(second, None)]
  {
    var msgs := [EncodeCommand(Command(SetCommand, key, first)),
                 EncodeCommand(Command(SetCommand, key, second)),
                 EncodeCommand(Command(GetCommand, key, []))];
    ApplySet(db, key, first);
    var db1 := db[key := first];
    ApplySet(db1, key, second);
    var db2 := db1[key := second];
    ApplyGet(db2, key, []);
    assert msgs[1..][1..] == [msgs[2]];
    assert ApplyAll(db2, [msgs[2]]).0 == [Returned(second, None)];
    assert ApplyAll(db1, msgs[1..]).0 == [Returned([], None), Returned(second, None)];
  }

  /** A Get of a key on an empty store is answered "Key not found". */
  lemma EmptyStoreNotFound(key: GoString)
    requires Encodable(Command(GetCommand, key, []))
    ensures Step(map[], EncodeCommand(Command(GetCommand, key, []))).out == Returned([], Some(KeyNotFound))
  {
    ApplyGet(map[], key, []);
  }

  /** `StateMachine`: the store (`db`) and the index of the server it runs on. */
  class StateMachine {
    var db: map<GoString, GoString>
    var server: int

    constructor (server: int)
      ensures db == map[] && this.server == server
    {
      db := map[];
      this.server := server;
    }

    /** `StateMachine.Apply`: decode `cmd`, then store, look up or reject. */
    method Apply(cmd: seq<byte>) returns (out: Outcome)
      modifies this`db
      ensures Transition(out, db) == Step(old(db), cmd)
    {
      match DecodeCommand(cmd)
      case OutOfRange =>
        out := Panicked;
      case Decoded(c) =>
        if c.kind == SetCommand {
          db := db[c.key := c.value];
          out := Returned([], None);
        } else if c.kind == GetCommand {
          if c.key !in db {
            return Returned([], Some(KeyNotFound));
          }
          out := Returned(db[c.key], None);
        } else {
          out := Returned([], Some(UnknownCommand(c.kind)));
        }
    }
  }
}
