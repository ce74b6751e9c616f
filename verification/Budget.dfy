/** How many bytes a packet takes: piggybacked broadcasts (broadcast.go), sendMsg (net.go) and gossip (state.go). */
module Budget {
  import opened Base
  import opened Queue
  import opened QueueObject
  import Compound
  import Label
  import Packet
  import Security

  const USER_MSG: byte := 8
  const COMPOUND_HEADER_OVERHEAD: int := 2
  const COMPOUND_OVERHEAD: int := 2
  const USER_MSG_OVERHEAD: int := 1

  // ---------------------------------------------------------------- collecting broadcasts

  /** The user's delegate may add messages of its own, given an overhead per message and a limit. */
  datatype Delegate = NoDelegate | Delegate(broadcasts: (int, int) -> seq<Bytes>)

  /** The bytes of messages, with an overhead for each. */
  function Total(msgs: seq<Bytes>, overhead: int): (n: int)
  {
    if msgs == [] then 0 else Total(msgs[..|msgs| - 1], overhead) + |msgs[|msgs| - 1]| + overhead
  }

  /** The delegate keeps to the limit that it is given. */
  ghost predicate Honours(d: Delegate)
  {
    d.Delegate? ==> forall overhead, limit :: limit >= 0 ==> Total(d.broadcasts(overhead, limit), overhead) <= limit
  }

  function Framed(msgs: seq<Bytes>): (r: seq<Bytes>)
  {
    if msgs == [] then [] else Framed(msgs[..|msgs| - 1]) + [[USER_MSG] + msgs[|msgs| - 1]]
  }

  /** What getBroadcasts adds to the queued messages. */
  function UserMessages(queued: seq<Bytes>, d: Delegate, overhead: int, limit: int): (r: seq<Bytes>)
  {
    var avail := limit - Total(queued, overhead);
    if d.Delegate? && avail > overhead + USER_MSG_OVERHEAD then
      Framed(d.broadcasts(overhead + USER_MSG_OVERHEAD, avail))
    else []
  }

  function Broadcasts(tree: seq<Item>, d: Delegate, overhead: int, limit: int): (r: seq<Bytes>)
  {
    var queued := Messages(Taken(tree, overhead, limit));
    queued + UserMessages(queued, d, overhead, limit)
  }

  method GetBroadcasts(q: TransmitLimitedQueue, d: Delegate, overhead: int, limit: int, numNodes: nat)
    returns (toSend: seq<Bytes>)
    requires q.Valid() && overhead >= 0 && limit <= MAX_I64
    modifies q
    ensures q.Valid() && q.View() == Get(old(q.View()), overhead, limit, RetransmitLimit(q.retransmitMult, numNodes)).0
    ensures toSend == Broadcasts(old(q.View()).tree, d, overhead, limit)
  {
    toSend := q.GetBroadcasts(overhead, limit, numNodes);
    ghost var queued := toSend;
    assert queued + [] == queued;
    if d.Delegate? {
      var bytesUsed := 0;
      for i := 0 to |toSend|
        invariant bytesUsed == Total(toSend[..i], overhead)
      {
        assert toSend[..i + 1][..i] == toSend[..i];
        bytesUsed := bytesUsed + |toSend[i]| + overhead;
      }
      assert toSend[..|toSend|] == toSend;
      var avail := limit - bytesUsed;
      if avail > overhead + USER_MSG_OVERHEAD {
        var userMsgs := d.broadcasts(overhead + USER_MSG_OVERHEAD, avail);
        for i := 0 to |userMsgs|
          invariant toSend == queued + Framed(userMsgs[..i])
        {
          assert userMsgs[..i + 1][..i] == userMsgs[..i];
          var buf := [USER_MSG];
          buf := buf + userMsgs[i];
          toSend := toSend + [buf];
        }
        assert userMsgs[..|userMsgs|] == userMsgs;
      }
    }
  }

  // ---------------------------------------------------------------- they fit

  lemma {:induction false} TotalAppend(a: seq<Bytes>, b: seq<Bytes>, overhead: int)
    ensures Total(a + b, overhead) == Total(a, overhead) + Total(b, overhead)
    decreases |b|
  {
    if b == [] {
      assert a + b == a;
    } else {
      TotalAppend(a, b[..|b| - 1], overhead);
      assert (a + b)[..|a + b| - 1] == a + b[..|b| - 1];
    }
  }

  lemma TotalOne(msg: Bytes, overhead: int)
    ensures Total([msg], overhead) == |msg| + overhead
  {}

  lemma {:induction false} TotalFramed(msgs: seq<Bytes>, overhead: int)
    ensures Total(Framed(msgs), overhead) == Total(msgs, overhead + USER_MSG_OVERHEAD)
    decreases |msgs|
  {
    if msgs != [] {
      TotalFramed(msgs[..|msgs| - 1], overhead);
      var f := Framed(msgs[..|msgs| - 1]);
      assert (f + [[USER_MSG] + msgs[|msgs| - 1]])[..|f|] == f;
    }
  }

  lemma {:induction false} TotalMessages(items: seq<Item>, overhead: int)
    ensures Total(Messages(items), overhead) == Cost(items, overhead)
    decreases |items|
  {
    if items != [] {
      var front, last := items[..|items| - 1], items[|items| - 1];
      TotalMessages(front, overhead);
      CostLast(items, overhead);
      assert (Messages(front) + [last.b.msg])[..|Messages(front)|] == Messages(front);
    }
  }

  lemma {:induction false} CostLast(items: seq<Item>, overhead: int)
    requires items != []
    ensures Cost(items, overhead) == Cost(items[..|items| - 1], overhead) + overhead + items[|items| - 1].Len()
  {
    if |items| > 1 {
      CostLast(items[1..], overhead);
      assert items[1..][..|items| - 2] == items[..|items| - 1][1..];
    } else {
      assert items[..0] == [] && items[1..] == [];
    }
  }

  lemma {:induction false} TotalNonNegative(msgs: seq<Bytes>, overhead: int)
    requires overhead >= 0
    ensures Total(msgs, overhead) >= 0
    decreases |msgs|
  {
    if msgs != [] { TotalNonNegative(msgs[..|msgs| - 1], overhead); }
  }

  /** All broadcasts of one call, with their overhead, keep to the limit; a limit below that of any
      message gives none. */
  lemma BroadcastsFit(tree: seq<Item>, d: Delegate, overhead: int, limit: int)
    requires overhead >= 0 && Honours(d)
    ensures var msgs := Broadcasts(tree, d, overhead, limit); msgs == [] || Total(msgs, overhead) <= limit
  {
    var taken := Taken(tree, overhead, limit);
    var queued := Messages(taken);
    TakenFits(tree, overhead, limit);
    TotalMessages(taken, overhead);
    TotalNonNegative(queued, overhead);
    var avail := limit - Total(queued, overhead);
    assert queued + [] == queued;
    if d.Delegate? && avail > overhead + USER_MSG_OVERHEAD {
      var user := d.broadcasts(overhead + USER_MSG_OVERHEAD, avail);
      TotalFramed(user, overhead);
      TotalAppend(queued, Framed(user), overhead);
    }
  }

  // ---------------------------------------------------------------- the size of a packet

  function EncryptionOverhead(s: Packet.Sender): nat
    requires Packet.SenderOk(s)
  {
    if s.encryption.Some? then Security.EncryptOverhead(s.encryption.value.0) else 0
  }

  function ChecksumSize(checksum: bool): nat { if checksum then 5 else 0 }

  /** The size of a packet, for every sender: what encryption makes of the compressed payload and its
      checksum, and the label. */
  lemma WireExact(c: Packet.Codec, s: Packet.Sender, checksum: bool, nonce: Bytes, msg: Bytes)
    requires Packet.Faithful(c) && Packet.SenderOk(s) && |nonce| == Security.NONCE_SIZE
    ensures var n := |Packet.Compressed(c, s, msg)| + ChecksumSize(checksum);
            var sealed := if s.encryption.Some? then Security.EncryptedLength(s.encryption.value.0, n) else n;
            |Packet.Wire(c, s, checksum, nonce, msg)| == sealed + Label.Overhead(s.name)
  {
    var checked := Packet.Checked(c, checksum, Packet.Compressed(c, s, msg));
    if s.encryption.Some? {
      Security.EncryptedSize(c.cipher, s.encryption.value.0, s.encryption.value.1, nonce, checked, s.name);
    }
    Label.RoundTrip(Packet.Sealed(c, s, nonce, checked), s.name);
  }

  /** A sender that neither compresses nor pads. */
  predicate Unpadded(s: Packet.Sender)
  {
    !s.compression && (s.encryption.Some? ==> s.encryption.value.0 == 1)
  }

  /** Every layer adds at most what is reserved for it, and without compression and padding exactly that. */
  lemma WireSize(c: Packet.Codec, s: Packet.Sender, checksum: bool, nonce: Bytes, msg: Bytes)
    requires Packet.Faithful(c) && Packet.SenderOk(s) && |nonce| == Security.NONCE_SIZE
    ensures var most := |msg| + ChecksumSize(checksum) + EncryptionOverhead(s) + Label.Overhead(s.name);
            && |Packet.Wire(c, s, checksum, nonce, msg)| <= most
            && (Unpadded(s) ==> |Packet.Wire(c, s, checksum, nonce, msg)| == most)
  {}

  lemma {:induction false} LengthsTotal(msgs: seq<Bytes>)
    ensures 2 * |msgs| + |Compound.Concat(msgs)| == Total(msgs, COMPOUND_OVERHEAD)
    decreases |msgs|
  {
    if msgs != [] {
      LengthsTotal(msgs[1..]);
      TotalAppend([msgs[0]], msgs[1..], COMPOUND_OVERHEAD);
      assert [msgs[0]] + msgs[1..] == msgs;
      TotalOne(msgs[0], COMPOUND_OVERHEAD);
    }
  }

  lemma EncodeSize(msgs: seq<Bytes>)
    ensures |Compound.Encode(msgs)| == COMPOUND_HEADER_OVERHEAD + Total(msgs, COMPOUND_OVERHEAD)
  {
    LengthsTotal(msgs);
  }

  // ---------------------------------------------------------------- sendMsg

  /** The room that sendMsg leaves for broadcasts: the length slot of the message itself is not counted. */
  function SendRoom(udp: int, s: Packet.Sender, msg: Bytes): int
    requires Packet.SenderOk(s)
  {
    udp - |msg| - COMPOUND_HEADER_OVERHEAD - Label.Overhead(s.name) - EncryptionOverhead(s)
  }

  function Joined(msg: Bytes, extra: seq<Bytes>): Bytes
  {
    if extra == [] then msg else Compound.Encode([msg] + extra)
  }

  lemma JoinedSize(msg: Bytes, extra: seq<Bytes>)
    requires extra != []
    ensures |Joined(msg, extra)| == 4 + |msg| + Total(extra, COMPOUND_OVERHEAD)
  {
    EncodeSize([msg] + extra);
    TotalAppend([msg], extra, COMPOUND_OVERHEAD);
    TotalOne(msg, COMPOUND_OVERHEAD);
  }

  /** A packet of sendMsg with broadcasts exceeds the buffer size by at most the 2 bytes of the
      uncounted slot, and the 5 of a checksum. */
  lemma PiggybackedSize(udp: int, c: Packet.Codec, s: Packet.Sender, checksum: bool, nonce: Bytes, msg: Bytes,
                        tree: seq<Item>, d: Delegate)
    requires Packet.Faithful(c) && Packet.SenderOk(s) && |nonce| == Security.NONCE_SIZE && Honours(d)
    ensures var extra := Broadcasts(tree, d, COMPOUND_OVERHEAD, SendRoom(udp, s, msg));
            extra != [] ==> |Packet.Wire(c, s, checksum, nonce, Joined(msg, extra))| <= udp + 2 + ChecksumSize(checksum)
  {
    var extra := Broadcasts(tree, d, COMPOUND_OVERHEAD, SendRoom(udp, s, msg));
    if extra != [] {
      BroadcastsFit(tree, d, COMPOUND_OVERHEAD, SendRoom(udp, s, msg));
      JoinedSize(msg, extra);
      WireSize(c, s, checksum, nonce, Joined(msg, extra));
    }
  }

  /** Without compression and padding, a packet with broadcasts keeps to the buffer size exactly if
      they leave room for the uncounted slot and the checksum. */
  lemma PiggybackedFits(udp: int, c: Packet.Codec, s: Packet.Sender, checksum: bool, nonce: Bytes, msg: Bytes,
                        extra: seq<Bytes>)
    requires Packet.Faithful(c) && Packet.SenderOk(s) && |nonce| == Security.NONCE_SIZE
    requires Unpadded(s) && extra != []
    ensures |Packet.Wire(c, s, checksum, nonce, Joined(msg, extra))| <= udp <==>
              Total(extra, COMPOUND_OVERHEAD) + 2 + ChecksumSize(checksum) <= SendRoom(udp, s, msg)
  {
    JoinedSize(msg, extra);
    WireSize(c, s, checksum, nonce, Joined(msg, extra));
  }

  /** The 2 bytes are really used: with no compression and no padding, a single broadcast that just
      fills the room gives a packet of that size. */
  lemma PiggybackedTight(udp: int, c: Packet.Codec, s: Packet.Sender, checksum: bool, nonce: Bytes, msg: Bytes, x: Item)
    requires Packet.Faithful(c) && Packet.SenderOk(s) && |nonce| == Security.NONCE_SIZE
    requires Unpadded(s)
    requires x.Len() > 0 && x.Len() + COMPOUND_OVERHEAD == SendRoom(udp, s, msg)
    ensures var extra := Broadcasts([x], NoDelegate, COMPOUND_OVERHEAD, SendRoom(udp, s, msg));
            extra == [x.b.msg]
            && |Packet.Wire(c, s, checksum, nonce, Joined(msg, extra))| == udp + 2 + ChecksumSize(checksum)
  {
    assert [x][1..] == [] && [x][..0] == [];
    assert Taken([x], COMPOUND_OVERHEAD, SendRoom(udp, s, msg)) == [x];
    assert Messages([x]) == [x.b.msg];
    TotalOne(x.b.msg, COMPOUND_OVERHEAD);
    JoinedSize(msg, [x.b.msg]);
    WireSize(c, s, checksum, nonce, Joined(msg, [x.b.msg]));
  }

  // ---------------------------------------------------------------- gossip

  /** Gossip reserves room for encryption whenever it is enabled, even if packets go out unencrypted. */
  function GossipRoom(udp: int, s: Packet.Sender, reserve: nat): int
    requires Packet.SenderOk(s)
  {
    udp - COMPOUND_HEADER_OVERHEAD - Label.Overhead(s.name) - reserve
  }

  lemma {:induction false} ChunkTotal(msgs: seq<Bytes>)
    ensures forall p :: p in Compound.EncodeAll(Compound.Chunks(msgs)) ==>
              |p| <= COMPOUND_HEADER_OVERHEAD + Total(msgs, COMPOUND_OVERHEAD)
    decreases |msgs|
  {
    var max := Compound.MAX_MSGS;
    if |msgs| > max {
      var chunk, rest := msgs[..max], msgs[max..];
      ChunkTotal(rest);
      EncodeSize(chunk);
      assert msgs == chunk + rest;
      TotalAppend(chunk, rest, COMPOUND_OVERHEAD);
      TotalNonNegative(chunk, COMPOUND_OVERHEAD);
      TotalNonNegative(rest, COMPOUND_OVERHEAD);
      assert ([chunk] + Compound.Chunks(rest))[1..] == Compound.Chunks(rest);
    } else if msgs != [] {
      EncodeSize(msgs);
      assert [msgs][1..] == [];
    }
  }

  lemma PayloadsFit(msgs: seq<Bytes>, room: int)
    requires Total(msgs, COMPOUND_OVERHEAD) <= room
    ensures forall p :: p in Packet.Payloads(msgs) ==> |p| <= COMPOUND_HEADER_OVERHEAD + room
  {
    if |msgs| == 1 {
      assert msgs[..0] == [];
    } else {
      ChunkTotal(msgs);
    }
  }

  /** No packet of gossip exceeds the buffer size, but for the 5 bytes of a checksum. */
  lemma GossipSize(udp: int, c: Packet.Codec, s: Packet.Sender, checksum: bool, nonce: Bytes, reserve: nat,
                   tree: seq<Item>, d: Delegate, payload: Bytes)
    requires Packet.Faithful(c) && Packet.SenderOk(s) && |nonce| == Security.NONCE_SIZE && Honours(d)
    requires EncryptionOverhead(s) <= reserve
    requires payload in Packet.Payloads(Broadcasts(tree, d, COMPOUND_OVERHEAD, GossipRoom(udp, s, reserve)))
    ensures |Packet.Wire(c, s, checksum, nonce, payload)| <= udp + ChecksumSize(checksum)
  {
    var room := GossipRoom(udp, s, reserve);
    var msgs := Broadcasts(tree, d, COMPOUND_OVERHEAD, room);
    BroadcastsFit(tree, d, COMPOUND_OVERHEAD, room);
    PayloadsFit(msgs, room);
    WireSize(c, s, checksum, nonce, payload);
  }

  /** Without compression and padding, a compound of gossip keeps to the buffer size exactly if the
      messages leave room for the checksum, or the reserve for encryption that is not used does. */
  lemma GossipFits(udp: int, c: Packet.Codec, s: Packet.Sender, checksum: bool, nonce: Bytes, reserve: nat,
                   msgs: seq<Bytes>)
    requires Packet.Faithful(c) && Packet.SenderOk(s) && |nonce| == Security.NONCE_SIZE && Unpadded(s)
    ensures |Packet.Wire(c, s, checksum, nonce, Compound.Encode(msgs))| <= udp <==>
              Total(msgs, COMPOUND_OVERHEAD) + ChecksumSize(checksum)
              <= GossipRoom(udp, s, reserve) + reserve - EncryptionOverhead(s)
  {
    EncodeSize(msgs);
    WireSize(c, s, checksum, nonce, Compound.Encode(msgs));
  }

  lemma {:induction false} AllTaken(items: seq<Item>, overhead: int, room: int)
    requires overhead >= 0 && Cost(items, overhead) <= room && forall x :: x in items ==> x.Len() > 0
    ensures Taken(items, overhead, room) == items
    decreases |items|
  {
    if items != [] {
      CostNonNegative(items[1..], overhead);
      AllTaken(items[1..], overhead, room - overhead - items[0].Len());
    }
  }

  lemma {:induction false} MessagesSize(items: seq<Item>)
    ensures |Messages(items)| == |items|
    decreases |items|
  {
    if items != [] { MessagesSize(items[..|items| - 1]); }
  }

  /** The 5 bytes are really used: a queue that just fills the room gives one packet of that size. */
  lemma GossipTight(udp: int, c: Packet.Codec, s: Packet.Sender, checksum: bool, nonce: Bytes, tree: seq<Item>)
    requires Packet.Faithful(c) && Packet.SenderOk(s) && |nonce| == Security.NONCE_SIZE && Unpadded(s)
    requires 2 <= |tree| <= Compound.MAX_MSGS && forall x :: x in tree ==> x.Len() > 0
    requires Cost(tree, COMPOUND_OVERHEAD) == GossipRoom(udp, s, EncryptionOverhead(s))
    ensures var msgs := Broadcasts(tree, NoDelegate, COMPOUND_OVERHEAD, GossipRoom(udp, s, EncryptionOverhead(s)));
            && Packet.Payloads(msgs) == [Compound.Encode(msgs)]
            && |Packet.Wire(c, s, checksum, nonce, Compound.Encode(msgs))| == udp + ChecksumSize(checksum)
  {
    var room := GossipRoom(udp, s, EncryptionOverhead(s));
    AllTaken(tree, COMPOUND_OVERHEAD, room);
    MessagesSize(tree);
    TotalMessages(tree, COMPOUND_OVERHEAD);
    var msgs := Broadcasts(tree, NoDelegate, COMPOUND_OVERHEAD, room);
    assert msgs == Messages(tree);
    Compound.OneChunk(msgs);
    EncodeSize(msgs);
    WireSize(c, s, checksum, nonce, Compound.Encode(msgs));
  }

  /** The delegate's messages follow the queued ones, each behind the byte of a user message, whenever
      more than the overhead of one is left; the delegate is told that overhead and what is left. */
  lemma UserMessagesFollow(tree: seq<Item>, d: Delegate, overhead: int, limit: int)
    ensures var msgs, queued := Broadcasts(tree, d, overhead, limit), Messages(Taken(tree, overhead, limit));
            var avail := limit - Total(queued, overhead);
            if d.Delegate? && avail > overhead + 1 then
              var user := d.broadcasts(overhead + 1, avail);
              && |msgs| == |queued| + |user| && msgs[..|queued|] == queued
              && forall i :: 0 <= i < |user| ==> msgs[|queued| + i] == [8] + user[i]
            else msgs == queued
  {
    hide Messages, Taken, Total, Framed;
    var queued := Messages(Taken(tree, overhead, limit));
    var avail := limit - Total(queued, overhead);
    if d.Delegate? && avail > overhead + 1 { FramedIs(d.broadcasts(overhead + 1, avail)); }
  }

  lemma {:induction false} FramedIs(msgs: seq<Bytes>)
    ensures |Framed(msgs)| == |msgs| && forall i :: 0 <= i < |msgs| ==> Framed(msgs)[i] == [8] + msgs[i]
    decreases |msgs|
  {
    if msgs != [] { FramedIs(msgs[..|msgs| - 1]); }
  }
}
