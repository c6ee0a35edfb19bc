/** The command codec of the HTTP front-end (cmd/kvapi): a one-byte kind, an
    8-byte little-endian key length, the key, an 8-byte little-endian value
    length and the value. The value-length field is written for every kind,
    but only read back for a Set. */
module KvApiCodec {

  import opened GoBytes

  /** `CommandKind` is a `uint8`, so a decoded kind may be any byte. */
  type CommandKind = byte

  const SetCommand: CommandKind := 0
  const GetCommand: CommandKind := 1

  /** Bytes before the key: the kind byte and the key-length field. */
  const KeyOffset: nat := 9
  /** Bytes of framing around key and value: kind and two length fields. */
  const Framing: nat := 17

  datatype Command = Command(kind: CommandKind, key: GoString, value: GoString)

  /** Both lengths fit their `uint64` fields. Every Go string does, since
      `len` returns an `int`. */
  predicate Encodable(c: Command)
  {
    |c.key| < Uint64Bound && |c.value| < Uint64Bound
  }

  /** What decoding keeps of a command: all of it for a Set; for any other
      kind the value is not read back and comes out empty. */
  function DecodedView(c: Command): Command
  {
    if c.kind == SetCommand then c else c.(value := [])
  }

  /** `encodeCommand`: the bytes appended, in order, to the buffer. */
  function EncodeCommand(c: Command): (msg: seq<byte>)
    requires Encodable(c)
    ensures |msg| == Framing + |c.key| + |c.value|
    ensures msg[0] == c.kind
    ensures Uint64(msg[1..KeyOffset]) == |c.key|
    ensures msg[KeyOffset..KeyOffset + |c.key|] == c.key
    ensures Uint64(msg[KeyOffset + |c.key|..Framing + |c.key|]) == |c.value|
    ensures msg[Framing + |c.key|..] == c.value
  {
    var msg := [c.kind] + PutUint64(|c.key|) + c.key + PutUint64(|c.value|) + c.value;
    assert msg[1..KeyOffset] == PutUint64(|c.key|);
    assert msg[KeyOffset + |c.key|..Framing + |c.key|] == PutUint64(|c.value|);
    msg
  }

  /** The outcome of `decodeCommand`: a command, or the runtime panic Go
      raises when a slice bound runs past the end of the message. */
  datatype Decoded = Decoded(cmd: Command) | OutOfRange

  /** `decodeCommand`. It reads the kind, the key length and the key; only
      for a Set does it go on to the value length and the value. Bytes after
      what it reads are ignored. */
  function DecodeCommand(msg: seq<byte>): (r: Decoded)
    ensures |msg| < KeyOffset ==> r == OutOfRange
    ensures r.Decoded? ==> r.cmd.kind == msg[0] && KeyOffset + |r.cmd.key| <= |msg|
    ensures r.Decoded? && r.cmd.kind != SetCommand ==> r.cmd.value == []
    ensures r.Decoded? && r.cmd.kind == SetCommand ==> Framing + |r.cmd.key| + |r.cmd.value| <= |msg|
  {
    if |msg| < KeyOffset then OutOfRange
    else
      var kind := msg[0];
      var keyLen := Uint64(msg[1..KeyOffset]);
      if |msg| < KeyOffset + keyLen then OutOfRange
      else
        var key := msg[KeyOffset..KeyOffset + keyLen];
        if kind != SetCommand then Decoded(Command(kind, key, []))
        else if |msg| < Framing + keyLen then OutOfRange
        else
          var valLen := Uint64(msg[KeyOffset + keyLen..Framing + keyLen]);
          if |msg| < Framing + keyLen + valLen then OutOfRange
          else Decoded(Command(kind, key, msg[Framing + keyLen..Framing + keyLen + valLen]))
  }

  /** A decoded command re-encodes to the bytes it was read from: the whole
      encoding for a Set, and the kind, key length and key for any other
      kind, whose value comes out empty. */
  lemma DecodeCommandSound(msg: seq<byte>)
    ensures var r := DecodeCommand(msg);
      r.Decoded? ==>
        && Encodable(r.cmd) && DecodedView(r.cmd) == r.cmd
        && (r.cmd.kind == SetCommand ==> EncodeCommand(r.cmd) <= msg)
        && EncodeCommand(r.cmd)[..KeyOffset + |r.cmd.key|] <= msg
  {
    var r := DecodeCommand(msg);
    if r.Decoded? {
      var c := r.cmd;
      var keyLen := Uint64(msg[1..KeyOffset]);
      assert c.kind == msg[0] && c.key == msg[KeyOffset..KeyOffset + keyLen];
      PutUint64OfUint64(msg[1..KeyOffset]);
      PrefixFields(c, msg);
      if c.kind == SetCommand {
        var valLen := Uint64(msg[KeyOffset + keyLen..Framing + keyLen]);
        assert c.value == msg[Framing + keyLen..Framing + keyLen + valLen];
        SetFieldsSound(c, msg);
      }
    }
  }

  /** The fields a Set was decoded from make up its whole encoding. */
  lemma SetFieldsSound(c: Command, msg: seq<byte>)
    requires |msg| >= Framing + |c.key|
    requires msg[0] == c.kind && Uint64(msg[1..KeyOffset]) == |c.key|
    requires msg[KeyOffset..KeyOffset + |c.key|] == c.key
    requires Uint64(msg[KeyOffset + |c.key|..Framing + |c.key|]) == |c.value|
    requires |msg| >= Framing + |c.key| + |c.value|
    requires msg[Framing + |c.key|..Framing + |c.key| + |c.value|] == c.value
    ensures Encodable(c) && EncodeCommand(c) <= msg
  {
    PutUint64OfUint64(msg[1..KeyOffset]);
    PutUint64OfUint64(msg[KeyOffset + |c.key|..Framing + |c.key|]);
    WholeFields(c, msg);
  }

  /** The key part of an encoding is determined by its fields. */
  lemma PrefixFields(c: Command, msg: seq<byte>)
    requires Encodable(c) && |msg| >= KeyOffset + |c.key|
    requires msg[0] == c.kind
    requires msg[1..KeyOffset] == PutUint64(|c.key|)
    requires msg[KeyOffset..KeyOffset + |c.key|] == c.key
    ensures EncodeCommand(c)[..KeyOffset + |c.key|] == msg[..KeyOffset + |c.key|]
  {
    var e := EncodeCommand(c);
    var n := KeyOffset + |c.key|;
    forall i | 0 <= i < n ensures e[i] == msg[i] {
      if 1 <= i < KeyOffset {
        assert e[i] == e[1..KeyOffset][i - 1];
        assert msg[i] == msg[1..KeyOffset][i - 1];
        PutUint64OfUint64(e[1..KeyOffset]);
      } else if KeyOffset <= i {
        assert e[i] == e[KeyOffset..n][i - KeyOffset];
        assert msg[i] == msg[KeyOffset..n][i - KeyOffset];
      }
    }
  }

  /** A whole encoding is determined by its fields. */
  lemma WholeFields(c: Command, msg: seq<byte>)
    requires Encodable(c) && |msg| >= Framing + |c.key| + |c.value|
    requires msg[0] == c.kind
    requires msg[1..KeyOffset] == PutUint64(|c.key|)
    requires msg[KeyOffset..KeyOffset + |c.key|] == c.key
    requires msg[KeyOffset + |c.key|..Framing + |c.key|] == PutUint64(|c.value|)
    requires msg[Framing + |c.key|..Framing + |c.key| + |c.value|] == c.value
    ensures EncodeCommand(c) == msg[..Framing + |c.key| + |c.value|]
  {
    var e := EncodeCommand(c);
    var k := KeyOffset + |c.key|;
    var n := Framing + |c.key| + |c.value|;
    PrefixFields(c, msg);
    forall i | 0 <= i < n ensures e[i] == msg[i] {
      if i < k {
        assert e[i] == e[..k][i] && msg[i] == msg[..k][i];
      } else if i < k + 8 {
        assert e[i] == e[k..k + 8][i - k];
        assert msg[i] == msg[k..k + 8][i - k];
        PutUint64OfUint64(e[k..k + 8]);
      } else {
        assert e[i] == e[k + 8..][i - k - 8];
        assert msg[i] == msg[k + 8..n][i - k - 8];
      }
    }
  }

  /** Decoding accepts every message that starts with an encoding of a Set,
      and returns that Set. With `DecodeCommandSound`,
      `DecodeCommand(msg) == Decoded(c)` holds exactly when `c`'s encoding is
      a prefix of `msg`. */
  lemma {:induction false} DecodeSetPrefix(c: Command, msg: seq<byte>)
    requires Encodable(c) && c.kind == SetCommand
    requires EncodeCommand(c) <= msg
    ensures DecodeCommand(msg) == Decoded(c)
  {
    var e := EncodeCommand(c);
    var k := KeyOffset + |c.key|;
    assert msg[1..KeyOffset] == e[1..KeyOffset];
    assert msg[KeyOffset..k] == e[KeyOffset..k];
    assert msg[k..k + 8] == e[k..k + 8];
    assert msg[k + 8..k + 8 + |c.value|] == e[k + 8..];
  }

  /** For any other kind, decoding needs only the kind, key length and key,
      and returns the command with an empty value. */
  lemma {:induction false} DecodeOtherPrefix(c: Command, msg: seq<byte>)
    requires Encodable(c) && c.kind != SetCommand
    requires EncodeCommand(c)[..KeyOffset + |c.key|] <= msg
    ensures DecodeCommand(msg) == Decoded(c.(value := []))
  {
    var e := EncodeCommand(c);
    var k := KeyOffset + |c.key|;
    assert msg[1..KeyOffset] == e[1..KeyOffset];
    assert msg[KeyOffset..k] == e[KeyOffset..k];
  }

  /** Round trip: decoding an encoding gives the command back, except that a
      non-Set command's value is dropped; a Get built with an empty value,
      as the read handler builds it, comes back unchanged. */
  lemma RoundTrip(c: Command)
    requires Encodable(c)
    ensures DecodeCommand(EncodeCommand(c)) == Decoded(DecodedView(c))
    ensures c.kind == SetCommand || c.value == [] ==> DecodeCommand(EncodeCommand(c)) == Decoded(c)
  {
    if c.kind == SetCommand {
      DecodeSetPrefix(c, EncodeCommand(c));
    } else {
      DecodeOtherPrefix(c, EncodeCommand(c));
    }
  }

  /** A truncated Set fails to decode: every strict prefix of a Set encoding
      is rejected rather than read past its end. */
  lemma TruncatedSetRejected(c: Command, msg: seq<byte>)
    requires Encodable(c) && c.kind == SetCommand
    requires msg < EncodeCommand(c)
    ensures DecodeCommand(msg) == OutOfRange
  {
    var e := EncodeCommand(c);
    var k := KeyOffset + |c.key|;
    if |msg| >= KeyOffset {
      assert msg[0] == e[0] && msg[1..KeyOffset] == e[1..KeyOffset];
      if |msg| >= k + 8 {
        assert msg[k..k + 8] == e[k..k + 8];
      }
    }
  }

  /** A non-Set encoding decodes from a prefix exactly when the prefix still
      holds the whole key; the trailing value field is never read. */
  lemma TruncatedOtherRejected(c: Command, msg: seq<byte>)
    requires Encodable(c) && c.kind != SetCommand
    requires msg <= EncodeCommand(c)
    ensures DecodeCommand(msg).Decoded? <==> |msg| >= KeyOffset + |c.key|
  {
    var e := EncodeCommand(c);
    var k := KeyOffset + |c.key|;
    if |msg| >= k {
      DecodeOtherPrefix(c, msg);
    } else if |msg| >= KeyOffset {
      assert msg[1..KeyOffset] == e[1..KeyOffset];
    }
  }
}
