/** The key-value state machine of the stress harness (cmd/stress): a
    message is tried as a Set, then as a Get; anything else panics. */
module StressStateMachine {

  import opened GoBytes
  import opened StressCodec

  /** What `Apply` does with one message: it returns a result (its error is
      always nil), or it panics, on an unknown message or on a slice bound
      past the end of the message. */
  datatype Outcome = Returned(result: GoString) | Panicked

  /** The outcome of one message and the map after it. */
  datatype Transition = Transition(out: Outcome, kv: map<GoString, GoString>)

  /** Go's `kv[key]`: the stored value, or the zero value "" for a missing key. */
  function Lookup(kv: map<GoString, GoString>, key: GoString): GoString
  {
    if key in kv then kv[key] else []
  }

  /** `kvStateMachine.Apply`, as a function of the map before the call. */
  function Step(kv: map<GoString, GoString>, msg: seq<byte>): (t: Transition)
    ensures t.out.Panicked? ==> t.kv == kv
    ensures t.kv != kv ==> t.out == Returned([])
    ensures kv.Keys <= t.kv.Keys
  {
    match DecodeSet(msg)
    case OutOfRange => Transition(Panicked, kv)
    case Match((key, val)) => Transition(Returned([]), kv[key := val])
    case NoMatch =>
      match DecodeGet(msg)
      case Match(key) => Transition(Returned(Lookup(kv, key)), kv)
      case _ => Transition(Panicked, kv)
  }

  /** A Set message stores its pair, returns nothing, and leaves every other
      key as it was. */
  lemma ApplySet(kv: map<GoString, GoString>, key: GoString, value: GoString)
    requires |key| < Uint64Bound && |value| < Uint64Bound
    ensures var t := Step(kv, EncodeSet(key, value));
      && t.out == Returned([])
      && key in t.kv && t.kv[key] == value
      && forall k :: k != key ==> (k in t.kv <==> k in kv) && (k in kv ==> t.kv[k] == kv[k])
  {
    RoundTrip(key, value);
  }

  /** A Get message returns the stored value, or "" when the key is absent,
      and leaves the map unchanged. */
  lemma ApplyGet(kv: map<GoString, GoString>, key: GoString)
    requires |key| < Uint64Bound
    ensures Step(kv, EncodeGet(key)) == Transition(Returned(if key in kv then kv[key] else []), kv)
  {
    RoundTrip(key, []);
    TagsExclusive(key, []);
  }

  /** A message that is neither a Set nor a Get panics. */
  lemma ApplyUnknown(kv: map<GoString, GoString>, msg: seq<byte>)
    requires |msg| < 3 || (msg[..3] != SetTag && msg[..3] != GetTag)
    ensures Step(kv, msg) == Transition(Panicked, kv)
  {
  }

  /** `kvStateMachine`. Its mutex only serialises calls, so it is left out. */
  class KvStateMachine {
    var kv: map<GoString, GoString>

    /** `newKvSM`. */
    constructor ()
      ensures kv == map[]
    {
      kv := map[];
    }

    /** `kvStateMachine.Apply`. */
    method Apply(msg: seq<byte>) returns (out: Outcome)
      modifies this`kv
      ensures Transition(out, kv) == Step(old(kv), msg)
    {
      var asSet := DecodeSet(msg);
      if asSet.Match? {
        kv := kv[asSet.value.0 := asSet.value.1];
        return Returned([]);
      } else if asSet.NoMatch? {
        var asGet := DecodeGet(msg);
        if asGet.Match? {
          return Returned(Lookup(kv, asGet.value));
        }
      }
      out := Panicked;
    }
  }
}
