/**
  The encrypted channel (secure_channel.hpp) between two endpoints over an arbitrary
  network. AES-GCM is ideal: decryption succeeds exactly on what was encrypted under
  the same key and nonce. The network chooses every byte an endpoint reads, and the
  kernel chooses how many bytes each recv and send moves.
*/
module SecureChannel {
  import opened Bytes
  import opened Powers

  const NONCE_BYTES := 12
  const TAG_BYTES := 16
  const MIN_FRAME_BYTES := 28
  const MAX_FRAME_BYTES := 16 * 1024 * 1024
  const MAX_PLAINTEXT_BYTES := MAX_FRAME_BYTES - MIN_FRAME_BYTES
  const U64_MAX := 0xFFFF_FFFF_FFFF_FFFF

  type Key = Bytes

  // ---------- Nonces and lengths ----------

  /** The low k bytes of a counter, most significant first. */
  function BigEndian(x: nat, k: nat): (b: Bytes)
    ensures |b| == k
    decreases k
  {
    if k == 0 then [] else BigEndian(x / 256, k - 1) + [x % 256]
  }

  function Power256(k: nat): (p: nat)
    ensures p >= 1
  {
    if k == 0 then 1 else 256 * Power256(k - 1)
  }

  function FromBigEndian(b: Bytes): (x: nat)
    decreases |b|
  {
    if b == [] then 0 else
      var low: int := b[|b| - 1];
      256 * FromBigEndian(b[..|b| - 1]) + low
  }

  lemma {:induction false} BigEndianRoundTrip(x: nat, k: nat)
    requires x < Power256(k)
    ensures FromBigEndian(BigEndian(x, k)) == x
    decreases k
  {
    if k > 0 {
      BigEndianRoundTrip(x / 256, k - 1);
      var b := BigEndian(x, k);
      assert b[..k - 1] == BigEndian(x / 256, k - 1);
    }
  }

  /** make_nonce: four zero bytes, then the counter. */
  function Nonce(counter: nat): (n: Bytes)
    ensures |n| == NONCE_BYTES
  {
    [0, 0, 0, 0] + BigEndian(counter, 8)
  }

  /** Byte i of k bytes is the digit of 256^(k - 1 - i). */
  lemma {:induction false} BigEndianAt(x: nat, k: nat, i: nat)
    requires i < k
    ensures BigEndian(x, k)[i] == x / Power256(k - 1 - i) % 256
    decreases k
  {
    if i < k - 1 {
      BigEndianAt(x / 256, k - 1, i);
      DivideTwice(x, 256, Power256(k - 2 - i));
    } else {
      assert Power256(0) == 1;
    }
  }

  /** Four zero bytes, then the counter, most significant byte first. */
  lemma NonceBytes(counter: nat, i: nat)
    requires i < NONCE_BYTES
    ensures Nonce(counter)[i] == if i < 4 then 0 else counter / Power256(11 - i) % 256
  {
    if i >= 4 {
      BigEndianAt(counter, 8, i - 4);
    }
  }

  lemma NonceInjective(i: nat, j: nat)
    requires i <= U64_MAX && j <= U64_MAX && Nonce(i) == Nonce(j)
    ensures i == j
  {
    hide BigEndian, FromBigEndian;
    assert Power256(8) == U64_MAX + 1 by {
      assert Power256(4) == 0x1_0000_0000;
    }
    assert Nonce(i)[4..] == BigEndian(i, 8) && Nonce(j)[4..] == BigEndian(j, 8);
    BigEndianRoundTrip(i, 8);
    BigEndianRoundTrip(j, 8);
  }

  // ---------- Ideal authenticated encryption ----------

  datatype Sealed = Sealed(plaintext: Bytes, ciphertext: Bytes, tag: Bytes)

  type Ledger = map<(Key, Bytes), Sealed>

  /** Everything that was ever encrypted. A key and nonce pair may be used once. */
  class Aead {
    var ledger: Ledger

    constructor ()
      ensures ledger == map[]
    {
      ledger := map[];
    }

    /** The ciphertext and tag are whatever AES-GCM produces. */
    method Encrypt(key: Key, nonce: Bytes, plaintext: Bytes, ciphertext: Bytes, tag: Bytes)
      requires (key, nonce) !in ledger
      requires |ciphertext| == |plaintext| && |tag| == TAG_BYTES
      modifies this
      ensures ledger == old(ledger)[(key, nonce) := Sealed(plaintext, ciphertext, tag)]
    {
      ledger := ledger[(key, nonce) := Sealed(plaintext, ciphertext, tag)];
    }

    method Decrypt(key: Key, nonce: Bytes, ciphertext: Bytes, tag: Bytes) returns (p: Option<Bytes>)
      ensures p.Some? <==>
                && (key, nonce) in ledger
                && ledger[(key, nonce)].ciphertext == ciphertext && ledger[(key, nonce)].tag == tag
      ensures p.Some? ==> p.value == ledger[(key, nonce)].plaintext
    {
      p := None;
      if (key, nonce) in ledger && ledger[(key, nonce)].ciphertext == ciphertext && ledger[(key, nonce)].tag == tag {
        p := Some(ledger[(key, nonce)].plaintext);
      }
    }
  }

  // ---------- Stream sockets ----------

  /** What will arrive, what was written, and how much each call moves (0 or less: gone or error). */
  class Socket {
    var incoming: Bytes
    var outgoing: Bytes
    var moves: seq<int>

    constructor (stream: Bytes, choices: seq<int>)
      ensures incoming == stream && outgoing == [] && moves == choices
    {
      incoming, outgoing, moves := stream, [], choices;
    }

    method Recv(n: nat) returns (r: int, data: Bytes)
      modifies this
      ensures r <= n && outgoing == old(outgoing) && |moves| <= |old(moves)|
      ensures r > 0 ==> |data| == r && old(incoming) == data + incoming
      ensures r <= 0 ==> incoming == old(incoming)
      ensures old(moves) != [] && old(moves)[0] >= 1 && n >= 1 && old(incoming) != [] ==>
                r >= 1 && moves == old(moves)[1..]
    {
      var want := if moves == [] then 0 else moves[0];
      r := if want < n then want else n;
      r := if r < |incoming| then r else |incoming|;
      data := [];
      if moves != [] { moves := moves[1..]; }
      if r > 0 {
        data := incoming[..r];
        assert incoming == incoming[..r] + incoming[r..];
        incoming := incoming[r..];
      }
    }

    method Send(data: Bytes) returns (w: int)
      modifies this
      ensures w <= |data| && incoming == old(incoming)
      ensures outgoing == old(outgoing) + (if w > 0 then data[..w] else [])
    {
      var want := if moves == [] then 0 else moves[0];
      w := if want < |data| then want else |data|;
      if moves != [] { moves := moves[1..]; }
      if w > 0 {
        outgoing := outgoing + data[..w];
      }
    }
  }

  /** Enough successful calls to read n bytes one at a time. */
  ghost predicate Plenty(moves: seq<int>, n: nat) {
    n <= |moves| && forall i :: 0 <= i < n ==> moves[i] >= 1
  }

  /** read_exact: on success exactly the next n bytes of the stream, however recv cut them. */
  method ReadExact(s: Socket, n: nat) returns (ok: bool, buf: Bytes)
    modifies s
    ensures s.outgoing == old(s.outgoing)
    ensures ok ==> |buf| == n && old(s.incoming) == buf + s.incoming
    ensures Plenty(old(s.moves), n) && n <= |old(s.incoming)| ==>
              ok && exists c: nat :: c <= n && s.moves == old(s.moves)[c..]
  {
    buf := [];
    ok := true;
    ghost var start, moves := s.incoming, s.moves;
    ghost var easy := Plenty(moves, n) && n <= |start|;
    ghost var calls: nat := 0;
    while |buf| < n && ok
      invariant |buf| <= n && start == buf + s.incoming && s.outgoing == old(s.outgoing)
      invariant easy ==> ok && calls <= |buf| && s.moves == moves[calls..]
      decreases n - |buf|, ok
    {
      var r, data := s.Recv(n - |buf|);
      if r <= 0 {
        ok := false;
      } else {
        assert start == buf + data + s.incoming;
        buf := buf + data;
        calls := if easy then calls + 1 else calls;
      }
    }
  }

  /** write_exact: all of the data or, on failure, a prefix of it. */
  method WriteExact(s: Socket, data: Bytes) returns (ok: bool)
    modifies s
    ensures s.incoming == old(s.incoming)
    ensures ok ==> s.outgoing == old(s.outgoing) + data
    ensures exists k: nat :: k <= |data| && s.outgoing == old(s.outgoing) + data[..k]
  {
    var sent: nat := 0;
    ok := true;
    assert s.outgoing == old(s.outgoing) + data[..0];
    while sent < |data| && ok
      invariant sent <= |data| && s.incoming == old(s.incoming) && s.outgoing == old(s.outgoing) + data[..sent]
      decreases |data| - sent, ok
    {
      var w := s.Send(data[sent..]);
      if w <= 0 {
        ok := false;
      } else {
        assert data[..sent] + data[sent..][..w] == data[..sent + w];
        sent := sent + w;
      }
    }
    assert ok ==> data[..sent] == data;
  }

  // ---------- The channel ----------

  function Frame(nonce: Bytes, ciphertext: Bytes, tag: Bytes): Bytes {
    BigEndian(NONCE_BYTES + |ciphertext| + TAG_BYTES, 4) + nonce + ciphertext + tag
  }

  /** What a receiver reads out of a frame body: nonce, ciphertext, tag. */
  lemma FrameParts(nonce: Bytes, ciphertext: Bytes, tag: Bytes, rest: Bytes)
    requires |nonce| == NONCE_BYTES && |tag| == TAG_BYTES && |ciphertext| <= MAX_PLAINTEXT_BYTES
    ensures var f, n := Frame(nonce, ciphertext, tag) + rest, MIN_FRAME_BYTES + |ciphertext|;
            && |f| >= 4 + n && FromBigEndian(f[..4]) == n
            && f[4..16] == nonce && f[16..4 + n - 16] == ciphertext && f[4 + n - 16..4 + n] == tag && f[4 + n..] == rest
  {
    hide FromBigEndian, BigEndian;
    var n := MIN_FRAME_BYTES + |ciphertext|;
    assert Power256(4) == 0x1_0000_0000;
    BigEndianRoundTrip(n, 4);
    assert (Frame(nonce, ciphertext, tag) + rest)[..4] == BigEndian(n, 4);
  }

  /** Record number n under a key starts the stream, whole, and recv goes on until it is read. */
  ghost predicate Waiting(ledger: Ledger, key: Key, n: nat, stream: Bytes, moves: seq<int>)
    requires n <= U64_MAX
  {
    var k := (key, Nonce(n));
    && k in ledger && |ledger[k].ciphertext| <= MAX_PLAINTEXT_BYTES && |ledger[k].tag| == TAG_BYTES
    && Frame(Nonce(n), ledger[k].ciphertext, ledger[k].tag) <= stream
    && Plenty(moves, 4 + MIN_FRAME_BYTES + |ledger[k].ciphertext|)
  }

  class Channel {
    const sock: Socket
    const aead: Aead
    const sendKey: Key
    const recvKey: Key
    var sendCounter: nat
    var recvCounter: nat
    var broken: bool
    ghost var sent: seq<Bytes>
    ghost var delivered: seq<Bytes>

    constructor (s: Socket, a: Aead, client: bool, clientWriteKey: Key, serverWriteKey: Key)
      ensures sock == s && aead == a && sendCounter == recvCounter == 0 && !broken && sent == delivered == []
      ensures sendKey == (if client then clientWriteKey else serverWriteKey)
      ensures recvKey == (if client then serverWriteKey else clientWriteKey)
    {
      sock, aead := s, a;
      sendKey := if client then clientWriteKey else serverWriteKey;
      recvKey := if client then serverWriteKey else clientWriteKey;
      sendCounter, recvCounter, broken := 0, 0, false;
      sent, delivered := [], [];
    }

    ghost predicate Valid()
      reads this
    {
      |sent| == sendCounter <= U64_MAX && |delivered| == recvCounter <= U64_MAX
    }

    /** No nonce this endpoint may still use was used under its key. */
    ghost predicate Unused()
      reads this, aead
    {
      forall i: nat :: sendCounter <= i <= U64_MAX ==> (sendKey, Nonce(i)) !in aead.ledger
    }

    /** Encrypts under the next nonce, or refuses without consuming it. */
    method Send(plaintext: Bytes, encrypts: bool, ciphertext: Bytes, tag: Bytes) returns (ok: bool)
      requires Valid() && Unused() && |ciphertext| == |plaintext| && |tag| == TAG_BYTES
      modifies this, sock, aead
      ensures Valid() && recvCounter == old(recvCounter) && delivered == old(delivered)
              && sock.incoming == old(sock.incoming)
      ensures var refused :=
                old(broken) || old(sendCounter) == U64_MAX || |plaintext| > MAX_PLAINTEXT_BYTES || !encrypts;
              if refused then
                !ok && sendCounter == old(sendCounter) && sent == old(sent) && broken == old(broken)
                && aead.ledger == old(aead.ledger) && sock.outgoing == old(sock.outgoing)
              else
                sendCounter == old(sendCounter) + 1 && sent == old(sent) + [plaintext] && broken == !ok
                && aead.ledger
                  == old(aead.ledger)[(sendKey, Nonce(old(sendCounter))) := Sealed(plaintext, ciphertext, tag)]
                && (ok ==> sock.outgoing == old(sock.outgoing) + Frame(Nonce(old(sendCounter)), ciphertext, tag))
    {
      hide Nonce, BigEndian;
      if broken || sendCounter == U64_MAX { return false; }
      if |plaintext| > MAX_PLAINTEXT_BYTES { return false; }
      var nonce := Nonce(sendCounter);
      if !encrypts { return false; }
      aead.Encrypt(sendKey, nonce, plaintext, ciphertext, tag);
      sent := sent + [plaintext];
      sendCounter := sendCounter + 1;
      var len := BigEndian(NONCE_BYTES + |ciphertext| + TAG_BYTES, 4);
      ok := WriteExact(sock, len);
      if ok { ok := WriteExact(sock, nonce); }
      if ok { ok := WriteExact(sock, ciphertext); }
      if ok { ok := WriteExact(sock, tag); }
      assert ok ==> sock.outgoing == old(sock.outgoing) + (len + nonce + ciphertext + tag);
      if !ok { broken := true; }
    }

    /** A record of the next nonce, waiting whole at the start of the stream. */
    ghost predicate Arrived()
      reads this, aead, sock
    {
      recvCounter <= U64_MAX && Waiting(aead.ledger, recvKey, recvCounter, sock.incoming, sock.moves)
    }

    /** Delivers the next plaintext of the peer, or breaks the channel. */
    method Receive() returns (p: Option<Bytes>)
      requires Valid()
      modifies this, sock
      ensures Valid() && sendCounter == old(sendCounter) && sent == old(sent) && sock.outgoing == old(sock.outgoing)
      ensures var closed := old(broken) || old(recvCounter) == U64_MAX;
              if p.Some? then
                && !closed && recvCounter == old(recvCounter) + 1 && delivered == old(delivered) + [p.value] && !broken
                && (recvKey, Nonce(old(recvCounter))) in aead.ledger
                && p.value == aead.ledger[(recvKey, Nonce(old(recvCounter)))].plaintext
              else
                recvCounter == old(recvCounter) && delivered == old(delivered) && broken == (old(broken) || !closed)
      ensures !old(broken) && old(recvCounter) < U64_MAX && old(Arrived()) ==> p.Some?
    {
      hide Nonce, BigEndian, FromBigEndian;
      p := None;
      if broken || recvCounter == U64_MAX { return; }
      ghost var stream, moves, good := sock.incoming, sock.moves, Arrived();
      ghost var k := (recvKey, Nonce(recvCounter));
      ghost var rec := if good then aead.ledger[k] else Sealed([], [], []);
      if good {
        ghost var rest := stream[|Frame(Nonce(recvCounter), rec.ciphertext, rec.tag)|..];
        assert stream == Frame(Nonce(recvCounter), rec.ciphertext, rec.tag) + rest;
        FrameParts(Nonce(recvCounter), rec.ciphertext, rec.tag, rest);
      }
      var ok, lenBuf := ReadExact(sock, 4);
      if !ok { broken := true; return; }
      var frameLen := FromBigEndian(lenBuf);
      assert lenBuf == stream[..4];
      if frameLen < MIN_FRAME_BYTES || frameLen > MAX_FRAME_BYTES { broken := true; return; }
      var frame;
      ok, frame := ReadExact(sock, frameLen);
      if !ok { broken := true; return; }
      assert frame == stream[4..4 + frameLen];
      var expected := Nonce(recvCounter);
      if frame[..NONCE_BYTES] != expected { broken := true; return; }
      var ctLen := frameLen - MIN_FRAME_BYTES;
      p := aead.Decrypt(recvKey, expected, frame[NONCE_BYTES..NONCE_BYTES + ctLen], frame[NONCE_BYTES + ctLen..]);
      if p.None? { broken := true; return; }
      recvCounter := recvCounter + 1;
      delivered := delivered + [p.value];
    }
  }
}
