/** The message codec of the stress harness (cmd/stress): a 19-byte preamble
    of a 3-byte ASCII tag ("get" or "set"), the key length and the value
    length (8 zero bytes for a Get), then the key and the value. This layout
    is unrelated to the front-end's command codec. */
module StressCodec {

  import opened GoBytes

  /** "get" and "set" in ASCII. */
  const GetTag: seq<byte> := [0x67, 0x65, 0x74]
  const SetTag: seq<byte> := [0x73, 0x65, 0x74]

  /** Tag plus the two length fields. */
  const Preamble: nat := 19

  /** `make([]byte, n)`: `n` zero bytes. */
  function Zeros(n: nat): (r: seq<byte>)
    ensures |r| == n && forall i :: 0 <= i < n ==> r[i] == 0
  {
    seq(n, _ => 0)
  }

  /** `copy(buf[at:], src)` where `src` fits: `src` replaces the bytes at
      `at`, and the rest of `buf` is kept. */
  function CopyAt(buf: seq<byte>, at: nat, src: seq<byte>): (r: seq<byte>)
    requires at + |src| <= |buf|
    ensures |r| == |buf|
    ensures r[..at] == buf[..at] && r[at..at + |src|] == src && r[at + |src|..] == buf[at + |src|..]
  {
    buf[..at] + src + buf[at + |src|..]
  }

  /** `encodeKvsmMessage_Get`: a zeroed buffer of `19 + len(key)` bytes into
      which the tag, the key length and the key are copied. */
  function EncodeGet(key: GoString): (msg: seq<byte>)
    requires |key| < Uint64Bound
    ensures |msg| == Preamble + |key|
    ensures msg[..3] == GetTag
    ensures Uint64(msg[3..11]) == |key|
    ensures msg[11..Preamble] == Zeros(8)
    ensures msg[Preamble..] == key
  {
    var m0 := Zeros(Preamble + |key|);
    var m1 := CopyAt(m0, 0, GetTag);
    var m2 := CopyAt(m1, 3, PutUint64(|key|));
    var msg := CopyAt(m2, Preamble, key);
    assert msg[..Preamble] == m2[..Preamble];
    assert msg[..3] == msg[..Preamble][..3] == m2[..Preamble][..3] == m2[..3];
    assert m2[..3] == m1[..3];
    assert msg[3..11] == msg[..Preamble][3..11] == m2[..Preamble][3..11] == m2[3..11];
    assert msg[11..Preamble] == msg[..Preamble][11..] == m2[..Preamble][11..];
    assert m2[..Preamble][11..] == m2[11..][..8] == m1[11..][..8];
    assert m1[11..][..8] == m0[11..][..8];
    msg
  }

  /** `encodeKvsmMessage_Set`: a zeroed buffer of `19 + len(key) + len(value)`
      bytes into which the tag, both lengths, the key and the value are
      copied. */
  function EncodeSet(key: GoString, value: GoString): (msg: seq<byte>)
    requires |key| < Uint64Bound && |value| < Uint64Bound
    ensures |msg| == Preamble + |key| + |value|
    ensures msg[..3] == SetTag
    ensures Uint64(msg[3..11]) == |key|
    ensures Uint64(msg[11..Preamble]) == |value|
    ensures msg[Preamble..Preamble + |key|] == key
    ensures msg[Preamble + |key|..] == value
  {
    var m0 := Zeros(Preamble + |key| + |value|);
    var m1 := CopyAt(m0, 0, SetTag);
    var m2 := CopyAt(m1, 3, PutUint64(|key|));
    var m3 := CopyAt(m2, 11, PutUint64(|value|));
    var m4 := CopyAt(m3, Preamble, key);
    var msg := CopyAt(m4, Preamble + |key|, value);
    assert msg[..Preamble + |key|] == m4[..Preamble + |key|];
    assert m4[..Preamble] == m3[..Preamble];
    assert msg[..Preamble] == msg[..Preamble + |key|][..Preamble] == m4[..Preamble + |key|][..Preamble] == m3[..Preamble];
    assert msg[..3] == msg[..Preamble][..3] == m3[..Preamble][..3] == m3[..3] == m2[..3] == m1[..3];
    assert msg[3..11] == msg[..Preamble][3..11] == m3[..Preamble][3..11] == m3[..11][3..] == m2[..11][3..] == m2[3..11];
    assert msg[11..Preamble] == msg[..Preamble][11..] == m3[..Preamble][11..] == m3[11..Preamble];
    assert msg[Preamble..Preamble + |key|] == msg[..Preamble + |key|][Preamble..] == m4[..Preamble + |key|][Preamble..] == m4[Preamble..Preamble + |key|];
    msg
  }

  /** What a decoder returns: `false` (`NoMatch`), `true` with the decoded
      fields (`Match`), or the runtime panic Go raises when a slice bound
      runs past the end of the message (`OutOfRange`). */
  datatype Decoded<T> = NoMatch | Match(value: T) | OutOfRange

  /** `decodeKvsmMessage_Get`. It checks only that there are 3 bytes and that
      they are "get"; it then reads the key length and the key, ignoring the
      8 bytes after the key length and any bytes after the key. */
  function DecodeGet(msg: seq<byte>): (r: Decoded<GoString>)
    ensures |msg| < 3 ==> r == NoMatch
  {
    if |msg| < 3 || msg[..3] != GetTag then NoMatch
    else if |msg| < 11 then OutOfRange
    else
      var keyLen := Uint64(msg[3..11]);
      if |msg| < Preamble + keyLen then OutOfRange
      else Match(msg[Preamble..Preamble + keyLen])
  }

  /** `decodeKvsmMessage_Set`. It checks only that there are 3 bytes and that
      they are "set"; it then reads the key length, the key, the value length
      and the value, ignoring any bytes after the value. */
  function DecodeSet(msg: seq<byte>): (r: Decoded<(GoString, GoString)>)
    ensures |msg| < 3 ==> r == NoMatch
  {
    if |msg| < 3 || msg[..3] != SetTag then NoMatch
    else if |msg| < 11 then OutOfRange
    else
      var keyLen := Uint64(msg[3..11]);
      if |msg| < Preamble + keyLen then OutOfRange
      else
        var key := msg[Preamble..Preamble + keyLen];
        var valLen := Uint64(msg[11..Preamble]);
        if |msg| < Preamble + keyLen + valLen then OutOfRange
        else Match((key, msg[Preamble + keyLen..Preamble + keyLen + valLen]))
  }

  /** A key the Get decoder accepts re-encodes to the bytes it was read
      from, apart from the 8 reserved bytes, which the decoder ignores. */
  lemma DecodeGetSound(msg: seq<byte>)
    ensures var r := DecodeGet(msg);
      r.Match? ==>
        && |r.value| < Uint64Bound && |msg| >= Preamble + |r.value|
        && EncodeGet(r.value)[..11] == msg[..11]
        && EncodeGet(r.value)[Preamble..] == msg[Preamble..Preamble + |r.value|]
  {
    if DecodeGet(msg).Match? {
      var key := DecodeGet(msg).value;
      PutUint64OfUint64(msg[3..11]);
      Head11(EncodeGet(key), msg);
    }
  }

  /** A pair the Set decoder accepts re-encodes to the bytes it was read
      from. */
  lemma DecodeSetSound(msg: seq<byte>)
    ensures var r := DecodeSet(msg);
      r.Match? ==>
        && |r.value.0| < Uint64Bound && |r.value.1| < Uint64Bound
        && EncodeSet(r.value.0, r.value.1) <= msg
  {
    if DecodeSet(msg).Match? {
      var (key, value) := DecodeSet(msg).value;
      PutUint64OfUint64(msg[3..11]);
      PutUint64OfUint64(msg[11..Preamble]);
      SetFields(key, value, msg);
    }
  }

  /** Two messages with the same tag and key-length field agree on their
      first 11 bytes. */
  lemma Head11(a: seq<byte>, b: seq<byte>)
    requires |a| >= 11 && |b| >= 11
    requires a[..3] == b[..3] && a[3..11] == b[3..11]
    ensures a[..11] == b[..11]
  {
    forall i | 0 <= i < 11 ensures a[i] == b[i] {
      if i < 3 {
        assert a[i] == a[..3][i] && b[i] == b[..3][i];
      } else {
        assert a[i] == a[3..11][i - 3] && b[i] == b[3..11][i - 3];
      }
    }
  }

  /** A Set message is determined by its fields. */
  lemma SetFields(key: GoString, value: GoString, msg: seq<byte>)
    requires |key| < Uint64Bound && |value| < Uint64Bound
    requires |msg| >= Preamble + |key| + |value|
    requires msg[..3] == SetTag
    requires msg[3..11] == PutUint64(|key|)
    requires msg[11..Preamble] == PutUint64(|value|)
    requires msg[Preamble..Preamble + |key|] == key
    requires msg[Preamble + |key|..Preamble + |key| + |value|] == value
    ensures EncodeSet(key, value) == msg[..Preamble + |key| + |value|]
  {
    var e := EncodeSet(key, value);
    var k := Preamble + |key|;
    var n := k + |value|;
    PutUint64OfUint64(e[3..11]);
    PutUint64OfUint64(e[11..Preamble]);
    forall i | 0 <= i < n ensures e[i] == msg[i] {
      if i < 3 {
        assert e[i] == e[..3][i] && msg[i] == msg[..3][i];
      } else if i < 11 {
        assert e[i] == e[3..11][i - 3] && msg[i] == msg[3..11][i - 3];
      } else if i < Preamble {
        assert e[i] == e[11..Preamble][i - 11] && msg[i] == msg[11..Preamble][i - 11];
      } else if i < k {
        assert e[i] == e[Preamble..k][i - Preamble] && msg[i] == msg[Preamble..k][i - Preamble];
      } else {
        assert e[i] == e[k..][i - k] && msg[i] == msg[k..n][i - k];
      }
    }
  }

  /** The Get decoder accepts every message that starts like a Get
      encoding, whatever its 8 reserved bytes hold, and returns its key. */
  lemma {:induction false} DecodeGetPrefix(key: GoString, msg: seq<byte>)
    requires |key| < Uint64Bound && |msg| >= Preamble + |key|
    requires EncodeGet(key)[..11] == msg[..11]
    requires msg[Preamble..Preamble + |key|] == key
    ensures DecodeGet(msg) == Match(key)
  {
    var e := EncodeGet(key);
    assert msg[..3] == e[..11][..3] && e[..3] == e[..11][..3];
    assert msg[3..11] == msg[..11][3..] && e[3..11] == e[..11][3..];
  }

  /** The Set decoder accepts every message that starts with a Set
      encoding, and returns its key and value. */
  lemma {:induction false} DecodeSetPrefix(key: GoString, value: GoString, msg: seq<byte>)
    requires |key| < Uint64Bound && |value| < Uint64Bound
    requires EncodeSet(key, value) <= msg
    ensures DecodeSet(msg) == Match((key, value))
  {
    var e := EncodeSet(key, value);
    var k := Preamble + |key|;
    assert msg[..3] == e[..3] && msg[3..11] == e[3..11] && msg[11..Preamble] == e[11..Preamble];
    assert msg[Preamble..k] == e[Preamble..k];
    assert msg[k..k + |value|] == e[k..];
  }

  /** Round trips: each decoder gives back what its encoder was given. */
  lemma RoundTrip(key: GoString, value: GoString)
    requires |key| < Uint64Bound && |value| < Uint64Bound
    ensures DecodeGet(EncodeGet(key)) == Match(key)
    ensures DecodeSet(EncodeSet(key, value)) == Match((key, value))
  {
    DecodeGetPrefix(key, EncodeGet(key));
    DecodeSetPrefix(key, value, EncodeSet(key, value));
  }

  /** Tag rejection: neither decoder accepts the other's encodings. */
  lemma TagsExclusive(key: GoString, value: GoString)
    requires |key| < Uint64Bound && |value| < Uint64Bound
    ensures DecodeGet(EncodeSet(key, value)) == NoMatch
    ensures DecodeSet(EncodeGet(key)) == NoMatch
  {
    assert EncodeSet(key, value)[..3][0] != GetTag[0];
    assert EncodeGet(key)[..3][0] != SetTag[0];
  }

  /** A truncated Set past its tag is rejected: every strict prefix of a
      Set encoding that still holds the tag makes the decoder panic rather
      than read past the end. */
  lemma TruncatedSetRejected(key: GoString, value: GoString, msg: seq<byte>)
    requires |key| < Uint64Bound && |value| < Uint64Bound
    requires msg < EncodeSet(key, value) && |msg| >= 3
    ensures DecodeSet(msg) == OutOfRange
  {
    var e := EncodeSet(key, value);
    assert msg[..3] == e[..3];
    if |msg| >= 11 {
      assert msg[3..11] == e[3..11];
      if |msg| >= Preamble {
        assert msg[11..Preamble] == e[11..Preamble];
      }
    }
  }

  /** A truncated Get past its tag is rejected the same way: a prefix of a
      Get encoding decodes exactly when it holds the whole key. */
  lemma TruncatedGetRejected(key: GoString, msg: seq<byte>)
    requires |key| < Uint64Bound
    requires msg <= EncodeGet(key) && |msg| >= 3
    ensures DecodeGet(msg) == (if |msg| == Preamble + |key| then Match(key) else OutOfRange)
  {
    var e := EncodeGet(key);
    assert msg[..3] == e[..3];
    if |msg| >= 11 {
      assert msg[3..11] == e[3..11];
      if |msg| == Preamble + |key| {
        assert msg == e;
        RoundTrip(key, []);
      }
    }
  }
}
