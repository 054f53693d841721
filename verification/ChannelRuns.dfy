/**
  Two endpoints of the secure channel over an arbitrary network, for whole runs:
  what an endpoint delivered is always a prefix of what its peer encrypted.
*/
module ChannelRuns {
  import opened Bytes
  import opened SecureChannel

  datatype Event =
    | Sends(client: bool, plaintext: Bytes, encrypts: bool, ciphertext: Bytes, tag: Bytes)
    | Receives(client: bool)
    | Network(client: bool, stream: Bytes, moves: seq<int>)

  predicate Wellformed(e: Event) { e.Sends? ==> |e.ciphertext| == |e.plaintext| && |e.tag| == TAG_BYTES }

  /** One endpoint: what it encrypted and delivered, and what recv will give it. */
  datatype End = End(sent: seq<Bytes>, delivered: seq<Bytes>, broken: bool, incoming: Bytes, moves: seq<int>)

  datatype Picture = Picture(client: End, server: End, ledger: Ledger)

  ghost function Own(p: Picture, client: bool): End { if client then p.client else p.server }

  /** The other endpoint is untouched. */
  ghost predicate OtherSame(p: Picture, p': Picture, client: bool) { Own(p', !client) == Own(p, !client) }

  /** A send is refused on a broken or used-up channel, for a long plaintext or when encryption fails. */
  ghost predicate Accepts(x: End, plaintext: Bytes, encrypts: bool) {
    !x.broken && |x.sent| < U64_MAX && |plaintext| <= MAX_PLAINTEXT_BYTES && encrypts
  }

  /** An intact end that the record it expects has reached whole. */
  ghost predicate Due(x: End, ledger: Ledger, key: Key) {
    !x.broken && |x.delivered| < U64_MAX && Waiting(ledger, key, |x.delivered|, x.incoming, x.moves)
  }

  /** What one event makes of both ends. `key` is the sending key of the client, `key'` of the server. */
  ghost predicate Follows(e: Event, p: Picture, p': Picture, key: Key, key': Key) {
    && OtherSame(p, p', e.client)
    && var x, x', y := Own(p, e.client), Own(p', e.client), Own(p, !e.client);
    match e
    case Sends(client, plaintext, encrypts, ciphertext, tag) =>
      && x'.delivered == x.delivered && x'.incoming == x.incoming
      && if |x.sent| <= U64_MAX && Accepts(x, plaintext, encrypts)
         then x'.sent == x.sent + [plaintext]
              && p'.ledger
                == p.ledger[(if client then key else key', Nonce(|x.sent|)) := Sealed(plaintext, ciphertext, tag)]
         else x'.sent == x.sent && x'.broken == x.broken && p'.ledger == p.ledger
    case Receives(client) =>
      && x'.sent == x.sent && p'.ledger == p.ledger
      && (Delivers(x, x', y) || (x'.delivered == x.delivered && (x'.broken || |x.delivered| == U64_MAX)))
      && (Due(x, p.ledger, if client then key' else key) ==> Delivers(x, x', y))
    case Network(_, stream, moves) =>
      x' == x.(incoming := stream, moves := moves) && p'.ledger == p.ledger
  }

  /** An intact end delivers the next plaintext of its peer. */
  ghost predicate Delivers(x: End, x': End, y: End) {
    && !x.broken && !x'.broken && |x.delivered| < |y.sent|
    && x'.delivered == x.delivered + [y.sent[|x.delivered|]]
  }

  /** What is sent, carried over and received is delivered. */
  lemma SentArrives(p0: Picture, p1: Picture, p2: Picture, p3: Picture, client: bool, plaintext: Bytes,
                    ciphertext: Bytes, tag: Bytes, rest: Bytes, moves: seq<int>, key: Key, key': Key)
    requires |ciphertext| == |plaintext| && |tag| == TAG_BYTES && Accepts(Own(p0, client), plaintext, true)
    requires !Own(p0, !client).broken && |Own(p0, !client).delivered| == |Own(p0, client).sent|
    requires Plenty(moves, 4 + MIN_FRAME_BYTES + |ciphertext|)
    requires Follows(Sends(client, plaintext, true, ciphertext, tag), p0, p1, key, key')
    requires var stream := Frame(Nonce(|Own(p0, client).sent|), ciphertext, tag) + rest;
             Follows(Network(!client, stream, moves), p1, p2, key, key')
    requires Follows(Receives(!client), p2, p3, key, key')
    ensures Own(p3, !client).delivered == Own(p0, !client).delivered + [plaintext]
  {
    hide Nonce, Frame, Plenty;
    var x, y := Own(p0, client), Own(p2, !client);
    assert Waiting(p2.ledger, if client then key else key', |x.sent|, y.incoming, y.moves);
  }

  /** Under one key: exactly the nonces below the number sent are used, and what was delivered is a prefix. */
  ghost predicate InOrder(ledger: Ledger, key: Key, sent: seq<Bytes>, delivered: seq<Bytes>) {
    && |sent| <= U64_MAX
    && (forall i: nat :: i < |sent| ==> (key, Nonce(i)) in ledger && ledger[(key, Nonce(i))].plaintext == sent[i])
    && (forall i: nat :: |sent| <= i <= U64_MAX ==> (key, Nonce(i)) !in ledger)
    && delivered <= sent
  }

  /** Encrypting under the next nonce. */
  lemma Encrypting(ledger: Ledger, key: Key, sent: seq<Bytes>, delivered: seq<Bytes>, rec: Sealed)
    requires InOrder(ledger, key, sent, delivered) && |sent| < U64_MAX
    ensures InOrder(ledger[(key, Nonce(|sent|)) := rec], key, sent + [rec.plaintext], delivered)
  {
    hide Nonce;
    forall j: nat | j <= U64_MAX && j != |sent|
      ensures Nonce(j) != Nonce(|sent|)
    {
      if Nonce(j) == Nonce(|sent|) {
        NonceInjective(j, |sent|);
      }
    }
  }

  /** Encrypting under another key does not matter. */
  lemma OtherKey(ledger: Ledger, key: Key, sent: seq<Bytes>, delivered: seq<Bytes>, other: Key, nonce: Bytes,
                 rec: Sealed)
    requires InOrder(ledger, key, sent, delivered) && other != key
    ensures InOrder(ledger[(other, nonce) := rec], key, sent, delivered)
  {
    hide Nonce;
  }

  /** Accepting the next nonce delivers the next plaintext. */
  lemma Accepting(ledger: Ledger, key: Key, sent: seq<Bytes>, delivered: seq<Bytes>)
    requires InOrder(ledger, key, sent, delivered) && |delivered| <= U64_MAX && (key, Nonce(|delivered|)) in ledger
    ensures |delivered| < |sent| && ledger[(key, Nonce(|delivered|))].plaintext == sent[|delivered|]
    ensures InOrder(ledger, key, sent, delivered + [ledger[(key, Nonce(|delivered|))].plaintext])
  {
    hide Nonce;
    var c := |delivered|;
    assert c < |sent|;
    assert sent[..c + 1] == sent[..c] + [sent[c]];
  }

  lemma NextUnused(ledger: Ledger, key: Key, sent: seq<Bytes>, delivered: seq<Bytes>)
    requires InOrder(ledger, key, sent, delivered)
    ensures forall i: nat :: |sent| <= i <= U64_MAX ==> (key, Nonce(i)) !in ledger
  {
  }

  class Session {
    const aead: Aead
    const client: Channel
    const server: Channel

    ghost predicate Apart()
      reads this, client, server
    {
      && client != server && client.sock != server.sock && client.aead == server.aead == aead
      && client.sendKey != server.sendKey
    }

    ghost predicate Valid()
      reads this, client, server, aead
    {
      && Apart() && client.Valid() && server.Valid()
      && server.recvKey == client.sendKey && client.recvKey == server.sendKey
      && InOrder(aead.ledger, client.sendKey, client.sent, server.delivered)
      && InOrder(aead.ledger, server.sendKey, server.sent, client.delivered)
    }

    /** A fresh handshake: distinct direction keys, nothing encrypted yet. */
    constructor (clientKey: Key, serverKey: Key)
      requires clientKey != serverKey
      ensures Valid() && client.sent == server.sent == [] && fresh(aead) && fresh(client) && fresh(server)
      ensures fresh(client.sock) && fresh(server.sock)
    {
      var a := new Aead();
      var cs := new Socket([], []);
      var ss := new Socket([], []);
      var c := new Channel(cs, a, true, clientKey, serverKey);
      var s := new Channel(ss, a, false, clientKey, serverKey);
      aead, client, server := a, c, s;
    }

    ghost function Now(): Picture
      reads this, client, server, aead, client.sock, server.sock
    {
      Picture(End(client.sent, client.delivered, client.broken, client.sock.incoming, client.sock.moves),
              End(server.sent, server.delivered, server.broken, server.sock.incoming, server.sock.moves), aead.ledger)
    }

    /** One event. A broken endpoint stays broken and delivers nothing. */
    method Step(e: Event)
      requires Valid() && Wellformed(e)
      modifies client, server, aead, client.sock, server.sock
      ensures Valid() && Follows(e, old(Now()), Now(), client.sendKey, server.sendKey)
      ensures old(client.broken) ==>
                client.broken && client.delivered == old(client.delivered) && client.sent == old(client.sent)
      ensures old(server.broken) ==>
                server.broken && server.delivered == old(server.delivered) && server.sent == old(server.sent)
    {
      hide Nonce, InOrder, Waiting, Accepts, Delivers, Due;
      match e
      case Sends(_, _, _, _, _) =>
        StepSends(e);
      case Receives(_) =>
        StepReceives(e);
      case Network(byClient, stream, moves) =>
        var sock := if byClient then client.sock else server.sock;
        sock.incoming, sock.moves := stream, moves;
    }

    method StepSends(e: Event)
      requires Valid() && Wellformed(e) && e.Sends?
      modifies client, server, aead, client.sock, server.sock
      ensures Valid() && Follows(e, old(Now()), Now(), client.sendKey, server.sendKey)
      ensures old(client.broken) ==>
                client.broken && client.delivered == old(client.delivered) && client.sent == old(client.sent)
      ensures old(server.broken) ==>
                server.broken && server.delivered == old(server.delivered) && server.sent == old(server.sent)
    {
      hide Nonce, InOrder, Waiting, Delivers, Due;
      var x, y := if e.client then client else server, if e.client then server else client;
      ghost var rec := Sealed(e.plaintext, e.ciphertext, e.tag);
      NextUnused(aead.ledger, x.sendKey, x.sent, y.delivered);
      if |x.sent| < U64_MAX {
        Encrypting(aead.ledger, x.sendKey, x.sent, y.delivered, rec);
      }
      OtherKey(aead.ledger, y.sendKey, y.sent, x.delivered, x.sendKey, Nonce(|x.sent|), rec);
      var ok := x.Send(e.plaintext, e.encrypts, e.ciphertext, e.tag);
    }

    method StepReceives(e: Event)
      requires Valid() && e.Receives?
      modifies client, server, aead, client.sock, server.sock
      ensures Valid() && Follows(e, old(Now()), Now(), client.sendKey, server.sendKey)
      ensures old(client.broken) ==>
                client.broken && client.delivered == old(client.delivered) && client.sent == old(client.sent)
      ensures old(server.broken) ==>
                server.broken && server.delivered == old(server.delivered) && server.sent == old(server.sent)
    {
      hide Nonce, InOrder, Waiting, Accepts;
      var x, y := if e.client then client else server, if e.client then server else client;
      if (x.recvKey, Nonce(|x.delivered|)) in aead.ledger {
        Accepting(aead.ledger, y.sendKey, y.sent, x.delivered);
      }
      var p := x.Receive();
    }

    /** Every run, event by event: whatever the network presents, each side delivered a prefix of what its
        peer encrypted. */
    method Run(events: seq<Event>) returns (ghost ps: seq<Picture>)
      requires Valid() && forall i :: 0 <= i < |events| ==> Wellformed(events[i])
      modifies client, server, aead, client.sock, server.sock
      ensures Valid() && server.delivered <= client.sent && client.delivered <= server.sent
      ensures old(client.broken) ==> client.delivered == old(client.delivered)
      ensures old(server.broken) ==> server.delivered == old(server.delivered)
      ensures |ps| == |events| + 1 && ps[0] == old(Now()) && ps[|events|] == Now()
      ensures forall i :: 0 <= i < |events| ==> Follows(events[i], ps[i], ps[i + 1], client.sendKey, server.sendKey)
    {
      hide Nonce, Follows;
      ps := [Now()];
      for i := 0 to |events|
        invariant Valid()
        invariant old(client.broken) ==> client.broken && client.delivered == old(client.delivered)
        invariant old(server.broken) ==> server.broken && server.delivered == old(server.delivered)
        invariant |ps| == i + 1 && ps[0] == old(Now()) && ps[i] == Now()
        invariant forall j :: 0 <= j < i ==> Follows(events[j], ps[j], ps[j + 1], client.sendKey, server.sendKey)
      {
        Step(events[i]);
        ps := ps + [Now()];
      }
    }
  }
}
