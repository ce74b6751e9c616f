/** A packet from the sender's messages to the receiver's handlers (net.go): compression, checksum,
    encryption and label going out, and the reverse coming in. */
module Packet {
  import opened Base
  import Compound
  import Keyring
  import Label
  import Security

  const COMPRESS_MSG: byte := 9
  const HAS_CRC_MSG: byte := 12

  /** The libraries: compression (with its type byte), the checksum and the cipher. */
  datatype Codec = Codec(compress: Bytes -> Option<Bytes>, decompress: Bytes -> Option<Bytes>,
                         crc: Bytes -> u32, cipher: Security.Cipher)

  ghost predicate Faithful(c: Codec)
  {
    && Security.Faithful(c.cipher)
    && forall x :: c.compress(x).Some? ==>
         |c.compress(x).value| > 0 && c.compress(x).value[0] == COMPRESS_MSG
         && c.decompress(c.compress(x).value[1..]) == Some(x)
  }

  // ---------------------------------------------------------------- sending

  /** `encryption` is the version and the primary key, if outgoing packets are encrypted. */
  datatype Sender = Sender(compression: bool, encryption: Option<(byte, Keyring.Key)>, name: Bytes)

  function Put32(n: u32): (r: Bytes)
    ensures |r| == 4
  {
    [n / 0x100_0000, n / 0x1_0000 % 256, n / 256 % 256, n % 256]
  }

  function Get32(b: Bytes): (n: nat)
    requires |b| == 4
  {
    0x1_0000 * Compound.Get16(b[0], b[1]) + Compound.Get16(b[2], b[3])
  }

  lemma RoundTrip32(n: u32)
    ensures Get32(Put32(n)) == n
  {
    assert n / 0x1_0000 == 256 * (n / 0x100_0000) + n / 0x1_0000 % 256;
    assert n % 0x1_0000 == 256 * (n / 256 % 256) + n % 256;
  }

  /** Compressed only if that makes it smaller. */
  function Compressed(c: Codec, s: Sender, msg: Bytes): (r: Bytes)
    ensures |r| <= |msg|
  {
    if s.compression && c.compress(msg).Some? && |c.compress(msg).value| < |msg| then c.compress(msg).value else msg
  }

  function Checked(c: Codec, checksum: bool, msg: Bytes): Bytes
  {
    if checksum then [HAS_CRC_MSG] + Put32(c.crc(msg)) + msg else msg
  }

  function Sealed(c: Codec, s: Sender, nonce: Bytes, msg: Bytes): Bytes
  {
    match s.encryption
    case Some((vsn, key)) => Security.Encrypted(c.cipher, vsn, key, nonce, msg, s.name)
    case None => msg
  }

  /** The packet before the transport labels it. `checksum` says that the destination is known to
      understand protocol version 5. */
  function Raw(c: Codec, s: Sender, checksum: bool, nonce: Bytes, msg: Bytes): (r: Bytes)
  {
    Sealed(c, s, nonce, Checked(c, checksum, Compressed(c, s, msg)))
  }

  /** A configuration that memberlist accepts: a label that is not too long, a version it knows, a key. */
  predicate SenderOk(s: Sender)
  {
    && |s.name| <= Label.MAX_SIZE
    && (s.encryption.Some? ==> s.encryption.value.0 <= Security.MAX_VERSION && Keyring.ValidKey(s.encryption.value.1))
  }

  function Wire(c: Codec, s: Sender, checksum: bool, nonce: Bytes, msg: Bytes): (r: Bytes)
    requires SenderOk(s)
  {
    Label.Add(Raw(c, s, checksum, nonce, msg), s.name).value
  }

  /** Where a packet goes: a node's name, which may be missing, and the host part of the address,
      if it parses. `node` is the highest protocol version of the node, if the caller knows it. */
  datatype Destination = Destination(name: string, host: Option<string>, node: Option<nat>)

  method RawSendMsgPacket(c: Codec, s: Sender, requireNames: bool, to: Destination, known: map<string, nat>,
                          nonce: Bytes, payload: Bytes)
    returns (packet: Result<Bytes>)
    requires SenderOk(s) && |nonce| == Security.NONCE_SIZE
    ensures packet.Err? <==> (requireNames && to.name == "") || (to.node.None? && to.host.None?)
    ensures packet.Ok? ==>
              var version := if to.node.Some? then to.node.value
                             else if to.host.value in known then known[to.host.value] else 0;
              packet.value == Wire(c, s, version >= 5, nonce, payload)
  {
    if to.name == "" && requireNames { return Err; }
    var msg := payload;
    if s.compression {
      var buf := c.compress(msg);
      if buf.Some? && |buf.value| < |msg| { msg := buf.value; }
    }
    var node := to.node;
    if node.None? {
      if to.host.None? { return Err; }
      if to.host.value in known { node := Some(known[to.host.value]); }
    }
    ghost var squeezed, checksum := msg, node.Some? && node.value >= 5;
    if node.Some? && node.value >= 5 {
      var header := [HAS_CRC_MSG] + Put32(c.crc(msg));
      msg := header + msg;
    }
    assert msg == Checked(c, checksum, squeezed);
    if s.encryption.Some? {
      var (vsn, key) := s.encryption.value;
      var buf := Security.EncryptPayload(c.cipher, vsn, key, msg, s.name, nonce, []);
      assert [] + Security.Encrypted(c.cipher, vsn, key, nonce, msg, s.name) == buf.value;
      msg := buf.value;
    }
    assert squeezed == Compressed(c, s, payload);
    assert msg == Raw(c, s, checksum, nonce, payload);
    packet := Label.Add(msg, s.name);
  }

  // ---------------------------------------------------------------- receiving

  /** `keys` is the keyring; encryption is enabled if it is not empty. */
  datatype Receiver = Receiver(name: Bytes, skipLabelCheck: bool, keys: seq<Keyring.Key>, verifyIncoming: bool)

  /** What handleCommand hands on, in order. */
  datatype Outcome = Delivered(msgs: seq<Bytes>) | Discarded | Crashed

  /** The message types with a handler of their own: ping, indirect ping, ack, suspect, alive, dead, user, nack. */
  predicate IsLeaf(msg: Bytes) { msg != [] && msg[0] in {0, 1, 2, 3, 4, 5, 8, 11} }

  /** Unwrapping of compound and compressed messages, the latter up to `depth` times. */
  function Handle(c: Codec, buf: Bytes, depth: nat): (r: seq<Bytes>)
    decreases depth, |buf|, 0
  {
    if buf == [] then []
    else if buf[0] == Compound.COMPOUND_MSG then
      match Compound.Decode(buf[1..])
      case Ok(p) => PartsShorter(buf[1..]); HandleParts(c, p.parts, |buf| - 1, depth)
      case Err => []
    else if buf[0] == COMPRESS_MSG then
      (match c.decompress(buf[1..])
       case Some(payload) => if depth == 0 then [] else Handle(c, payload, depth - 1)
       case None => [])
    else if IsLeaf(buf) then [buf] else []
  }

  function HandleParts(c: Codec, parts: seq<Bytes>, most: nat, depth: nat): (r: seq<Bytes>)
    requires forall p :: p in parts ==> |p| <= most
    decreases depth, most, |parts| + 1
  {
    if parts == [] then [] else Handle(c, parts[0], depth) + HandleParts(c, parts[1..], most, depth)
  }

  lemma {:induction false} SplitShorter(body: Bytes, lengths: seq<nat>)
    ensures forall p :: p in Compound.Split(body, lengths).parts ==> |p| <= |body|
  {
    if lengths != [] && lengths[0] <= |body| { SplitShorter(body[lengths[0]..], lengths[1..]); }
  }

  lemma PartsShorter(buf: Bytes)
    requires Compound.Decode(buf).Ok?
    ensures forall p :: p in Compound.Decode(buf).value.parts ==> |p| <= |buf|
  {
    var n: int := buf[0];
    SplitShorter(buf[1..][2 * n..], Compound.Announced(buf[1..], n));
  }

  /** The checksum, if there is one, is verified and removed. */
  function Verified(c: Codec, buf: Bytes): (r: Option<Bytes>)
  {
    if |buf| >= 5 && buf[0] == HAS_CRC_MSG then
      (if c.crc(buf[5..]) == Get32(buf[1..5]) then Some(buf[5..]) else None)
    else Some(buf)
  }

  /** What is left after decryption; without verification, a packet that no key opens passes as it is. */
  function Opened(c: Codec, r: Receiver, buf: Bytes): Security.Plain
  {
    if r.keys == [] then Security.Plain(buf)
    else
      var plain := Security.Decrypted(c.cipher, r.keys, buf, r.name);
      if plain.Refused? && !r.verifyIncoming then Security.Plain(buf) else plain
  }

  function Ingest(c: Codec, r: Receiver, packet: Bytes, depth: nat): (o: Outcome)
  {
    match Label.Remove(packet)
    case Err => Discarded
    case Ok((buf, name)) =>
      if (if r.skipLabelCheck then name != [] else name != r.name) then Discarded
      else match Opened(c, r, buf)
           case Refused => Discarded
           case Crashed => Crashed
           case Plain(plain) =>
             match Verified(c, plain)
             case Some(msg) => Delivered(Handle(c, msg, depth))
             case None => Discarded
  }

  /** handleCommand, handleCompound and handleCompressed: the handlers' calls, in order. */
  method HandleCommand(c: Codec, buf: Bytes, depth: nat) returns (handled: seq<Bytes>)
    ensures handled == Handle(c, buf, depth)
    decreases depth, |buf|
  {
    handled := [];
    if |buf| < 1 { return; }
    var msgType, rest := buf[0], buf[1..];
    if msgType == Compound.COMPOUND_MSG {
      var decoded := Compound.DecodeCompoundMessage(rest);
      if decoded.Ok? {
        PartsShorter(rest);
        handled := HandleEach(c, decoded.value.parts, |buf| - 1, depth);
      }
    } else if msgType == COMPRESS_MSG {
      var payload := c.decompress(rest);
      if payload.Some? && depth > 0 { handled := HandleCommand(c, payload.value, depth - 1); }
    } else if IsLeaf(buf) {
      handled := [buf];
    }
  }

  method HandleEach(c: Codec, parts: seq<Bytes>, most: nat, depth: nat) returns (handled: seq<Bytes>)
    requires forall p :: p in parts ==> |p| <= most
    ensures handled == HandleParts(c, parts, most, depth)
    decreases depth, most + 1, 0
  {
    handled := [];
    for i := 0 to |parts|
      invariant handled + HandleParts(c, parts[i..], most, depth) == HandleParts(c, parts, most, depth)
    {
      assert parts[i..][1..] == parts[i + 1..];
      var more := HandleCommand(c, parts[i], depth);
      assert handled + (more + HandleParts(c, parts[i + 1..], most, depth))
          == handled + more + HandleParts(c, parts[i + 1..], most, depth);
      handled := handled + more;
    }
    assert handled + [] == handled;
  }

  /** ingestPacket: strip the label, decrypt, check, and hand on. */
  method IngestPacket(c: Codec, r: Receiver, packet: Bytes, depth: nat) returns (o: Outcome)
    ensures o == Ingest(c, r, packet, depth)
  {
    var unlabelled := Label.Remove(packet);
    if unlabelled.Err? { return Discarded; }
    var (buf, packetLabel) := unlabelled.value;
    if r.skipLabelCheck {
      if packetLabel != [] { return Discarded; }
      packetLabel := r.name;
    }
    if r.name != packetLabel { return Discarded; }
    if |r.keys| > 0 {
      var plain := Security.DecryptPayload(c.cipher, r.keys, buf, packetLabel);
      if plain.Crashed? { return Crashed; }
      if plain.Refused? {
        if r.verifyIncoming { return Discarded; }
      } else {
        buf := plain.msg;
      }
    }
    var handled;
    if |buf| >= 5 && buf[0] == HAS_CRC_MSG {
      if c.crc(buf[5..]) != Get32(buf[1..5]) { return Discarded; }
      handled := HandleCommand(c, buf[5..], depth);
    } else {
      handled := HandleCommand(c, buf, depth);
    }
    return Delivered(handled);
  }

  // ---------------------------------------------------------------- round trip

  /** The receiver accepts the sender's packets: it has the same label, and either it holds the
      sender's key and no other key that opens the packet, or it takes a packet that is not
      encrypted, because encryption is off or because no key opens it and that is tolerated. */
  ghost predicate Accepts(c: Codec, s: Sender, r: Receiver, nonce: Bytes, msg: Bytes)
  {
    && s.name == r.name
    && (match s.encryption
        case Some((vsn, key)) =>
          && key in r.keys
          && (forall k :: k in r.keys && k != key ==>
                c.cipher.open(k, nonce, c.cipher.seal(key, nonce, Security.Source(vsn, msg), s.name), s.name).None?)
        case None => r.keys == [] || (!r.verifyIncoming && Security.Decrypted(c.cipher, r.keys, msg, r.name).Refused?))
  }

  /** Neither a label nor a checksum: what a message may start with. */
  predicate Unmarked(msg: Bytes) { msg != [] && msg[0] != HAS_CRC_MSG && msg[0] != Label.HAS_LABEL_MSG }

  lemma VerifiedChecked(c: Codec, checksum: bool, msg: Bytes)
    requires Unmarked(msg)
    ensures Verified(c, Checked(c, checksum, msg)) == Some(msg)
    ensures Checked(c, checksum, msg) != [] && Checked(c, checksum, msg)[0] != Label.HAS_LABEL_MSG
  {
    if checksum {
      var buf := Checked(c, checksum, msg);
      assert buf[5..] == msg && buf[1..5] == Put32(c.crc(msg));
      RoundTrip32(c.crc(msg));
    }
  }

  lemma OpenedSealed(c: Codec, s: Sender, r: Receiver, nonce: Bytes, msg: Bytes)
    requires Faithful(c) && SenderOk(s) && |nonce| == Security.NONCE_SIZE && Accepts(c, s, r, nonce, msg)
    ensures Opened(c, r, Sealed(c, s, nonce, msg)) == Security.Plain(msg)
  {
    if s.encryption.Some? {
      var (vsn, key) := s.encryption.value;
      Security.RoundTrip(c.cipher, vsn, key, nonce, msg, s.name, r.keys);
    }
  }

  /** What arrives at the receiver: a transport that checks labels itself has taken the label off. */
  function Arriving(c: Codec, s: Sender, r: Receiver, checksum: bool, nonce: Bytes, msg: Bytes): Bytes
    requires SenderOk(s)
  {
    if r.skipLabelCheck then Raw(c, s, checksum, nonce, msg) else Wire(c, s, checksum, nonce, msg)
  }

  lemma UnwrapsTo(c: Codec, s: Sender, r: Receiver, checksum: bool, nonce: Bytes, msg: Bytes, depth: nat)
    requires Faithful(c) && SenderOk(s) && |nonce| == Security.NONCE_SIZE && Unmarked(msg)
    requires Accepts(c, s, r, nonce, Checked(c, checksum, Compressed(c, s, msg)))
    ensures Ingest(c, r, Arriving(c, s, r, checksum, nonce, msg), depth)
            == Delivered(Handle(c, Compressed(c, s, msg), depth))
  {
    var squeezed := Compressed(c, s, msg);
    assert Unmarked(squeezed);
    var checked := Checked(c, checksum, squeezed);
    VerifiedChecked(c, checksum, squeezed);
    OpenedSealed(c, s, r, nonce, checked);
    var raw := Sealed(c, s, nonce, checked);
    assert raw != [] && raw[0] != Label.HAS_LABEL_MSG;
    Label.RoundTrip(raw, s.name);
  }

  /** One payload, through every layer: what the receiver handles is what was sent. */
  lemma OnePacket(c: Codec, s: Sender, r: Receiver, checksum: bool, nonce: Bytes, msg: Bytes, depth: nat)
    requires Faithful(c) && SenderOk(s) && |nonce| == Security.NONCE_SIZE && Unmarked(msg) && depth >= 1
    requires Accepts(c, s, r, nonce, Checked(c, checksum, Compressed(c, s, msg)))
    requires Handle(c, msg, depth) == Handle(c, msg, depth - 1)
    ensures Ingest(c, r, Arriving(c, s, r, checksum, nonce, msg), depth) == Delivered(Handle(c, msg, depth))
  {
    UnwrapsTo(c, s, r, checksum, nonce, msg, depth);
  }

  lemma {:induction false} HandleLeaves(c: Codec, msgs: seq<Bytes>, most: nat, depth: nat)
    requires forall m :: m in msgs ==> IsLeaf(m) && |m| <= most
    ensures HandleParts(c, msgs, most, depth) == msgs
  {
    if msgs != [] {
      HandleLeaves(c, msgs[1..], most, depth);
      assert Handle(c, msgs[0], depth) == [msgs[0]];
    }
  }

  lemma HandleCompound(c: Codec, msgs: seq<Bytes>, depth: nat)
    requires Compound.Encodable(msgs) && forall m :: m in msgs ==> IsLeaf(m)
    ensures Handle(c, Compound.Encode(msgs), depth) == msgs
  {
    var buf := Compound.Encode(msgs);
    assert |buf| >= 2 && buf[0] == Compound.COMPOUND_MSG;
    hide Compound.Encode, Compound.Decode, Compound.Encodable, IsLeaf;
    Compound.RoundTrip(msgs);
    PartsShorter(buf[1..]);
    HandleLeaves(c, msgs, |buf| - 1, depth);
  }

  /** The payloads in which gossip sends a list of messages: one alone as it is, several as compounds. */
  function Payloads(msgs: seq<Bytes>): (r: seq<Bytes>)
  {
    if |msgs| == 1 then msgs else Compound.EncodeAll(Compound.Chunks(msgs))
  }

  /** One packet on its way: the sender when it leaves, and the receiver when it arrives. */
  datatype Transit = Transit(s: Sender, checksum: bool, nonce: Bytes, r: Receiver)

  /** What the receiver handles of the packets of a list of payloads. */
  function HandledOf(c: Codec, ways: seq<Transit>, payloads: seq<Bytes>, depth: nat): seq<Bytes>
    requires |ways| == |payloads| && forall t :: t in ways ==> SenderOk(t.s)
  {
    if payloads == [] then []
    else
      var t := ways[0];
      var o := Ingest(c, t.r, Arriving(c, t.s, t.r, t.checksum, t.nonce, payloads[0]), depth);
      (if o.Delivered? then o.msgs else []) + HandledOf(c, ways[1..], payloads[1..], depth)
  }

  ghost predicate AcceptsOne(c: Codec, t: Transit, payload: Bytes)
  {
    && SenderOk(t.s) && |t.nonce| == Security.NONCE_SIZE
    && Accepts(c, t.s, t.r, t.nonce, Checked(c, t.checksum, Compressed(c, t.s, payload)))
  }

  ghost predicate AcceptsAll(c: Codec, ways: seq<Transit>, payloads: seq<Bytes>)
  {
    && |ways| == |payloads| && (forall t :: t in ways ==> SenderOk(t.s))
    && forall i :: 0 <= i < |payloads| ==> AcceptsOne(c, ways[i], payloads[i])
  }

  lemma AcceptsSplit(c: Codec, ways: seq<Transit>, payloads: seq<Bytes>)
    requires AcceptsAll(c, ways, payloads) && payloads != []
    ensures |ways| == |payloads| && AcceptsOne(c, ways[0], payloads[0]) && AcceptsAll(c, ways[1..], payloads[1..])
  {}

  /** A list of messages that one compound can carry. */
  ghost predicate Carried(msgs: seq<Bytes>)
  {
    Compound.Encodable(msgs) && forall m :: m in msgs ==> IsLeaf(m)
  }

  lemma CarriedHandled(c: Codec, msgs: seq<Bytes>, depth: nat)
    requires Carried(msgs)
    ensures Handle(c, Compound.Encode(msgs), depth) == msgs && Unmarked(Compound.Encode(msgs))
  {
    hide Handle;
    HandleCompound(c, msgs, depth);
  }

  lemma CompoundPacket(c: Codec, s: Sender, r: Receiver, checksum: bool, nonce: Bytes, msgs: seq<Bytes>, depth: nat)
    requires Faithful(c) && SenderOk(s) && |nonce| == Security.NONCE_SIZE && depth >= 1 && Carried(msgs)
    requires Accepts(c, s, r, nonce, Checked(c, checksum, Compressed(c, s, Compound.Encode(msgs))))
    ensures Ingest(c, r, Arriving(c, s, r, checksum, nonce, Compound.Encode(msgs)), depth) == Delivered(msgs)
  {
    hide *;
    CarriedHandled(c, msgs, depth);
    CarriedHandled(c, msgs, depth - 1);
    OnePacket(c, s, r, checksum, nonce, Compound.Encode(msgs), depth);
  }

  lemma {:induction false} CompoundsRoundTrip(c: Codec, ways: seq<Transit>, chunks: seq<seq<Bytes>>, depth: nat)
    requires Faithful(c) && depth >= 1
    requires forall k :: k in chunks ==> Carried(k)
    requires AcceptsAll(c, ways, Compound.EncodeAll(chunks))
    ensures HandledOf(c, ways, Compound.EncodeAll(chunks), depth) == Compound.Flatten(chunks)
    decreases |chunks|
  {
    if chunks != [] {
      hide Compound.Encode, Ingest, Arriving, Accepts, Faithful, SenderOk, Carried;
      var payloads, t := Compound.EncodeAll(chunks), ways[0];
      AcceptsSplit(c, ways, payloads);
      CompoundPacket(c, t.s, t.r, t.checksum, t.nonce, chunks[0], depth);
      assert payloads[1..] == Compound.EncodeAll(chunks[1..]);
      CompoundsRoundTrip(c, ways[1..], chunks[1..], depth);
    }
  }

  lemma OneMessage(c: Codec, ways: seq<Transit>, msgs: seq<Bytes>, depth: nat)
    requires Faithful(c) && depth >= 1 && |msgs| == 1 && IsLeaf(msgs[0])
    requires AcceptsAll(c, ways, msgs)
    ensures HandledOf(c, ways, msgs, depth) == msgs
  {
    assert Handle(c, msgs[0], depth) == [msgs[0]] == Handle(c, msgs[0], depth - 1);
    AcceptsSplit(c, ways, msgs);
    hide Ingest, Arriving, Accepts, AcceptsAll, Faithful, SenderOk, Handle;
    var t := ways[0];
    OnePacket(c, t.s, t.r, t.checksum, t.nonce, msgs[0], depth);
    assert msgs[1..] == [] && ways[1..] == [];
  }

  /** Any list of messages of up to 65535 bytes, gossiped through chunking, compounds, compression,
      checksum, encryption and label, is handled by the receiver in the same order. */
  lemma GossipRoundTrip(c: Codec, ways: seq<Transit>, msgs: seq<Bytes>, depth: nat)
    requires Faithful(c) && depth >= 1
    requires forall m :: m in msgs ==> IsLeaf(m) && |m| <= Compound.MAX_LEN
    requires AcceptsAll(c, ways, Payloads(msgs))
    ensures HandledOf(c, ways, Payloads(msgs), depth) == msgs
  {
    if |msgs| == 1 {
      OneMessage(c, ways, msgs, depth);
    } else {
      Compound.ChunksKeep(msgs);
      ChunkLeaves(msgs);
      assert forall k :: k in Compound.Chunks(msgs) ==> Carried(k);
      hide Compound.Chunks, Compound.EncodeAll, AcceptsAll;
      CompoundsRoundTrip(c, ways, Compound.Chunks(msgs), depth);
    }
  }

  lemma {:induction false} ChunkLeaves(msgs: seq<Bytes>)
    requires forall m :: m in msgs ==> IsLeaf(m)
    ensures forall k, m :: k in Compound.Chunks(msgs) && m in k ==> IsLeaf(m)
    decreases |msgs|
  {
    if |msgs| > Compound.MAX_MSGS { ChunkLeaves(msgs[Compound.MAX_MSGS..]); }
  }

  /** The ring held a key at some time up to `j`, and it has not been removed since. */
  ghost predicate Kept(rings: seq<seq<Keyring.Key>>, ops: seq<Keyring.Op>, key: Keyring.Key, j: nat)
    requires Keyring.History(rings, ops) && j < |rings|
  {
    exists i :: 0 <= i <= j && key in rings[i] && forall n :: i <= n < j ==> ops[n] != Keyring.RemoveKey(key)
  }

  /** When a receiver takes its keys, and, if the next operation removes one while it searches them,
      the place of that key and the pace of the search. */
  datatype Look = Look(at: nat, removal: Option<(nat, seq<nat>)>)

  ghost predicate LookOk(look: Look, rings: seq<seq<Keyring.Key>>, ops: seq<Keyring.Op>)
    requires Keyring.History(rings, ops)
  {
    && look.at < |rings|
    && (look.removal.Some? ==>
          var (r, moves), ring := look.removal.value, rings[look.at];
          && look.at < |ops| && 0 < r < |ring| && ops[look.at] == Keyring.RemoveKey(ring[r])
          && Keyring.Pace(ring, r, moves))
  }

  /** The keys that the search comes across. */
  ghost function Looked(look: Look, rings: seq<seq<Keyring.Key>>, ops: seq<Keyring.Op>): seq<Keyring.Key>
    requires Keyring.History(rings, ops) && LookOk(look, rings, ops)
  {
    match look.removal
    case Some((r, moves)) => Keyring.Seen(rings[look.at], r, moves)
    case None => rings[look.at]
  }

  /** The removal is not of this key, and does not hide it. */
  ghost predicate Unhidden(look: Look, rings: seq<seq<Keyring.Key>>, ops: seq<Keyring.Op>, key: Keyring.Key)
    requires Keyring.History(rings, ops) && LookOk(look, rings, ops)
  {
    match look.removal
    case Some((r, moves)) => key != rings[look.at][r] && !Keyring.Misses(rings[look.at], r, moves, key)
    case None => true
  }

  /** An encrypted packet for a receiver with the same label, whose ring has kept the sender's key
      when it looks, has no other key that opens the packet, and is not changed so as to hide it. */
  ghost predicate Readable(c: Codec, t: Transit, payload: Bytes,
                           rings: seq<seq<Keyring.Key>>, ops: seq<Keyring.Op>, look: Look)
    requires Keyring.History(rings, ops)
  {
    && SenderOk(t.s) && |t.nonce| == Security.NONCE_SIZE && t.s.encryption.Some? && t.s.name == t.r.name
    && LookOk(look, rings, ops) && t.r.keys == Looked(look, rings, ops)
    && var (vsn, key) := t.s.encryption.value;
       var plain := Security.Source(vsn, Checked(c, t.checksum, Compressed(c, t.s, payload)));
       && Kept(rings, ops, key, look.at) && Unhidden(look, rings, ops, key)
       && forall k :: k in rings[look.at] && k != key ==>
            c.cipher.open(k, t.nonce, c.cipher.seal(key, t.nonce, plain, t.s.name), t.s.name).None?
  }

  lemma LookFinds(look: Look, rings: seq<seq<Keyring.Key>>, ops: seq<Keyring.Op>, key: Keyring.Key)
    requires Keyring.History(rings, ops) && LookOk(look, rings, ops)
    requires Kept(rings, ops, key, look.at) && Unhidden(look, rings, ops, key)
    ensures key in Looked(look, rings, ops)
    ensures forall k :: k in Looked(look, rings, ops) ==> k in rings[look.at]
  {
    var at := look.at;
    var i :| 0 <= i <= at && key in rings[i] && forall n :: i <= n < at ==> ops[n] != Keyring.RemoveKey(key);
    Keyring.KeyStays(rings, ops, i, at, key);
    if look.removal.Some? {
      var (r, moves) := look.removal.value;
      Keyring.SearchFinds(rings[at], r, moves, key);
      Keyring.SeenOnly(rings[at], r, moves);
    }
  }

  lemma ReadableAccepted(c: Codec, t: Transit, payload: Bytes,
                         rings: seq<seq<Keyring.Key>>, ops: seq<Keyring.Op>, look: Look)
    requires Keyring.History(rings, ops) && Readable(c, t, payload, rings, ops, look)
    ensures AcceptsOne(c, t, payload)
  {
    hide Looked, Kept, Unhidden, LookOk, Keyring.History;
    LookFinds(look, rings, ops, t.s.encryption.value.1);
  }

  /** The same for encrypted packets and any history of the receiver's keyring, which may change
      between one packet of a list and the next, and also while it is searched for a key, and so may
      the key that the sender uses: each packet only has to find the key it was sealed with. */
  lemma RekeyedRoundTrip(c: Codec, ways: seq<Transit>, msgs: seq<Bytes>, depth: nat,
                         rings: seq<seq<Keyring.Key>>, ops: seq<Keyring.Op>, looks: seq<Look>)
    requires Faithful(c) && depth >= 1 && Keyring.History(rings, ops)
    requires forall m :: m in msgs ==> IsLeaf(m) && |m| <= Compound.MAX_LEN
    requires |ways| == |Payloads(msgs)| == |looks|
    requires forall q :: 0 <= q < |ways| ==> Readable(c, ways[q], Payloads(msgs)[q], rings, ops, looks[q])
    ensures (forall t :: t in ways ==> SenderOk(t.s)) && HandledOf(c, ways, Payloads(msgs), depth) == msgs
  {
    hide Payloads, Readable, AcceptsOne, SenderOk;
    forall q | 0 <= q < |ways| ensures AcceptsOne(c, ways[q], Payloads(msgs)[q]) && SenderOk(ways[q].s) {
      ReadableAccepted(c, ways[q], Payloads(msgs)[q], rings, ops, looks[q]);
      AcceptedSender(c, ways[q], Payloads(msgs)[q]);
    }
    GossipRoundTrip(c, ways, msgs, depth);
  }

  lemma AcceptedSender(c: Codec, t: Transit, payload: Bytes)
    requires AcceptsOne(c, t, payload)
    ensures SenderOk(t.s)
  {}

  // ---------------------------------------------------------------- what is turned away

  /** A packet as the transport delivers it: with the label in front, if there is one. */
  predicate Carries(packet: Bytes, name: Bytes, rest: Bytes)
  {
    if name == [] then packet == rest && (rest == [] || rest[0] != 244)
    else 1 <= |name| <= 255 && packet == [244, |name|] + name + rest
  }

  lemma CarriesIs(packet: Bytes, name: Bytes, rest: Bytes)
    ensures Carries(packet, name, rest) <==> Label.Remove(packet) == Ok((rest, name))
  {
    if Label.Remove(packet) == Ok((rest, name)) { Label.Canonical(packet); }
    if Carries(packet, name, rest) { Label.RoundTrip(rest, name); }
  }

  /** The label that a receiver wants in front of a packet. */
  function Wanted(r: Receiver): Bytes { if r.skipLabelCheck then [] else r.name }

  /** A packet with another label than the wanted one is discarded, and so is one that has none or
      only a part of one. */
  lemma OtherLabelDiscarded(c: Codec, r: Receiver, packet: Bytes, depth: nat)
    requires forall rest :: !Carries(packet, Wanted(r), rest)
    ensures Ingest(c, r, packet, depth) == Discarded
  {
    if Label.Remove(packet).Ok? {
      var (rest, name) := Label.Remove(packet).value;
      CarriesIs(packet, name, rest);
      assert name == Wanted(r) ==> Carries(packet, Wanted(r), rest);
    }
  }

  /** A packet carries one label only. */
  lemma OneLabel(packet: Bytes, name: Bytes, rest: Bytes, other: Bytes, rest': Bytes)
    requires Carries(packet, name, rest) && Carries(packet, other, rest')
    ensures name == other && rest == rest'
  {
    CarriesIs(packet, name, rest);
    CarriesIs(packet, other, rest');
  }

  /** With verification, what is delivered was sealed: some key of the ring opens what follows the
      label, with the label as associated data. */
  lemma OnlySealedDelivered(c: Codec, r: Receiver, packet: Bytes, depth: nat)
    requires r.verifyIncoming && r.keys != [] && Ingest(c, r, packet, depth).Delivered?
    ensures exists rest, key ::
              && Carries(packet, Wanted(r), rest) && |rest| >= 29 && rest[0] <= 1
              && key in r.keys && Keyring.ValidKey(key) && c.cipher.open(key, rest[1..13], rest[13..], r.name).Some?
  {
    var (rest, name) := Label.Remove(packet).value;
    CarriesIs(packet, name, rest);
    var key := SomeOpens(c, r.keys, rest, r.name);
    assert c.cipher.open(key, rest[1..13], rest[13..], r.name).Some?;
  }

  lemma {:induction false} SomeOpens(c: Codec, keys: seq<Keyring.Key>, msg: Bytes, data: Bytes)
    returns (key: Keyring.Key)
    requires |msg| >= 13 && Security.FirstOpened(c.cipher, keys, msg, data).Some?
    ensures key in keys && Keyring.ValidKey(key) && c.cipher.open(key, msg[1..13], msg[13..], data).Some?
  {
    if Security.Opened(c.cipher, keys[0], msg, data).Some? {
      key := keys[0];
    } else {
      key := SomeOpens(c, keys[1..], msg, data);
    }
  }

  /** With verification, a packet that no key opens is discarded; without, it is taken as a receiver
      that has no keys takes it. */
  lemma UnopenedPacket(c: Codec, r: Receiver, packet: Bytes, rest: Bytes, depth: nat)
    requires Carries(packet, Wanted(r), rest) && r.keys != []
    requires |rest| >= 13 ==> forall k :: k in r.keys ==> c.cipher.open(k, rest[1..13], rest[13..], r.name).None?
    ensures Ingest(c, r, packet, depth) ==
            if r.verifyIncoming then Discarded else Ingest(c, r.(keys := []), packet, depth)
  {
    CarriesIs(packet, Wanted(r), rest);
    if |rest| >= 13 { Security.NoneOpens(c.cipher, r.keys, rest, r.name); }
  }

  /** Without keys, what follows the label is handled as it is, unless it is marked to have a checksum. */
  lemma PlainPacket(c: Codec, r: Receiver, packet: Bytes, rest: Bytes, depth: nat)
    requires Carries(packet, Wanted(r), rest) && (rest == [] || rest[0] != HAS_CRC_MSG) && r.keys == []
    ensures Ingest(c, r, packet, depth) == Delivered(Handle(c, rest, depth))
  {
    CarriesIs(packet, Wanted(r), rest);
  }

  /** A message with a checksum is handled exactly if that is the checksum of its bytes. */
  lemma ChecksumDecides(c: Codec, s: Sender, r: Receiver, nonce: Bytes, sum: Bytes, msg: Bytes, packet: Bytes,
                        depth: nat)
    requires Faithful(c) && SenderOk(s) && |nonce| == Security.NONCE_SIZE && |sum| == 4
    requires Accepts(c, s, r, nonce, [12] + sum + msg)
    requires Carries(packet, Wanted(r), Sealed(c, s, nonce, [12] + sum + msg))
    ensures Ingest(c, r, packet, depth) ==
            if c.crc(msg) == ((sum[0] as int * 256 + sum[1] as int) * 256 + sum[2] as int) * 256 + sum[3] as int
            then Delivered(Handle(c, msg, depth)) else Discarded
  {
    var checked: Bytes := [12] + sum + msg;
    CarriesIs(packet, Wanted(r), Sealed(c, s, nonce, checked));
    OpenedSealed(c, s, r, nonce, checked);
    assert checked[5..] == msg && checked[1..5] == sum;
  }

  /** Which messages reach a handler: ping, indirect ping, ack, suspect, alive, dead, user message and
      nack, by their type; a compound or compressed message that does not decode gives nothing, and
      neither does any other type. */
  lemma TypesHandled(c: Codec, kind: byte, body: Bytes, depth: nat)
    ensures kind == 0 || kind == 1 || kind == 2 || kind == 3 || kind == 4 || kind == 5 || kind == 8 || kind == 11 ==>
              Handle(c, [kind] + body, depth) == [[kind] + body]
    ensures kind == 6 || kind == 10 || kind > 11 ==> Handle(c, [kind] + body, depth) == []
    ensures kind == 7 && Compound.Decode(body).Err? ==> Handle(c, [kind] + body, depth) == []
    ensures kind == 9 && c.decompress(body).None? ==> Handle(c, [kind] + body, depth) == []
    ensures kind == 9 && c.decompress(body).Some? && depth > 0 ==>
              Handle(c, [kind] + body, depth) == Handle(c, c.decompress(body).value, depth - 1)
  {
    assert ([kind] + body)[1..] == body;
  }

  /** What goes out is the compressed form exactly if compression is on, works, and makes it smaller. */
  lemma CompressedExactly(c: Codec, s: Sender, msg: Bytes)
    ensures Compressed(c, s, msg) == msg || Some(Compressed(c, s, msg)) == c.compress(msg)
    ensures |Compressed(c, s, msg)| < |msg| <==>
              s.compression && c.compress(msg).Some? && |c.compress(msg).value| < |msg|
    ensures s.compression && c.compress(msg).Some? ==> |Compressed(c, s, msg)| <= |c.compress(msg).value|
  {}

  /** The bytes of a packet: the label, the version and nonce of the encryption, the checksum with the high
      byte first, and the message, each as far as the sender uses it. */
  lemma WireLayout(c: Codec, s: Sender, checksum: bool, nonce: Bytes, msg: Bytes)
    requires SenderOk(s)
    ensures var m: Bytes := Compressed(c, s, msg);
            var n: int := c.crc(m);
            var sum: Bytes := [n / 0x100_0000, n / 0x1_0000 % 256, n / 0x100 % 256, n % 256];
            var checked: Bytes := if checksum then [12] + sum + m else m;
            var sealed: Bytes := match s.encryption
                                 case None => checked
                                 case Some((vsn, key)) =>
                                   var text := if vsn == 0 then Security.Pad(checked, 16) else checked;
                                   [vsn] + nonce + c.cipher.seal(key, nonce, text, s.name);
            Wire(c, s, checksum, nonce, msg) == if s.name == [] then sealed else [244, |s.name|] + s.name + sealed
  {
    var m := Compressed(c, s, msg);
    var n: int := c.crc(m);
    var sum: Bytes := [n / 0x100_0000, n / 0x1_0000 % 256, n / 0x100 % 256, n % 256];
    assert Checked(c, true, m) == [12] + sum + m;
  }
}
