/** Encryption of packets (security.go). The cipher itself is a parameter; the layout, the padding
    of version 0 and the search for a key that opens a packet are the code's own. */
module Security {
  import opened Base
  import opened Keyring

  const MAX_VERSION: byte := 1
  const VERSION_SIZE: nat := 1
  const NONCE_SIZE: nat := 12
  const TAG_SIZE: nat := 16
  const BLOCK_SIZE: nat := 16

  // ---------------------------------------------------------------- padding, section 6.3 of RFC 5652

  function Repeat(b: byte, n: nat): (r: Bytes)
    ensures |r| == n && forall i :: 0 <= i < n ==> r[i] == b
  {
    if n == 0 then [] else Repeat(b, n - 1) + [b]
  }

  function PadSize(n: nat, block: nat): (k: nat)
    requires 1 <= block <= 255
    ensures 1 <= k <= block && (n + k) % block == 0
  {
    PadSizeFits(n, block);
    block - n % block
  }

  lemma PadSizeFits(n: nat, block: nat)
    requires 1 <= block
    ensures 0 <= n % block < block && (n + (block - n % block)) % block == 0
  {
    var q := n / block;
    assert n == q * block + n % block;
    assert n + (block - n % block) == (q + 1) * block;
    MultipleMod(q + 1, block);
  }

  lemma MultipleMod(q: nat, block: nat)
    requires 1 <= block
    ensures (q * block) % block == 0
  {
    var m := q * block;
    var d, r := m / block, m % block;
    assert m == d * block + r;
    assert r == (q - d) * block;
    if q - d >= 1 {
      AtLeast(q - d, block);
    } else if q - d <= -1 {
      AtLeast(d - q, block);
    }
  }

  lemma AtLeast(t: nat, block: nat)
    requires 1 <= t
    ensures t * block >= block
  {}

  function Pad(msg: Bytes, block: nat): (r: Bytes)
    requires 1 <= block <= 255
  {
    msg + Repeat(PadSize(|msg|, block), PadSize(|msg|, block))
  }

  /** Nothing when the code would panic: on an empty buffer, or a last byte beyond the length. */
  function Unpad(buf: Bytes): (r: Option<Bytes>)
  {
    if buf == [] || buf[|buf| - 1] > |buf| then None else Some(buf[..|buf| - buf[|buf| - 1]])
  }

  /** The padding fills the last block with bytes that say how many there are, and comes off again. */
  lemma PadUnpad(msg: Bytes, block: nat)
    requires 1 <= block <= 255
    ensures var k := PadSize(|msg|, block);
            && |Pad(msg, block)| == |msg| + k && |Pad(msg, block)| % block == 0 && 1 <= k <= block
            && (forall i :: |msg| <= i < |msg| + k ==> Pad(msg, block)[i] == k)
            && Unpad(Pad(msg, block)) == Some(msg)
  {}

  /** Pads what follows the first `ignore` bytes of the buffer. */
  method Pkcs7Encode(buffer: Bytes, ignore: nat, block: nat) returns (buf: Bytes)
    requires ignore <= |buffer| && 1 <= block <= 255
    ensures buf == buffer[..ignore] + Pad(buffer[ignore..], block)
  {
    buf := buffer;
    var n := |buf| - ignore;
    var more := block - n % block;
    PadSizeFits(n, block);
    for i := 0 to more
      invariant buf == buffer + Repeat(more, i)
    {
      buf := buf + [more];
    }
    assert buffer == buffer[..ignore] + buffer[ignore..];
    assert buffer[..ignore] + (buffer[ignore..] + Repeat(more, more)) == buffer + Repeat(more, more);
  }

  // ---------------------------------------------------------------- lengths

  function EncryptOverhead(vsn: byte): nat
    requires vsn <= MAX_VERSION
  {
    if vsn == 0 then 45 else 29
  }

  function EncryptedLength(vsn: byte, n: nat): (r: nat)
  {
    if vsn >= 1 then VERSION_SIZE + NONCE_SIZE + n + TAG_SIZE
    else VERSION_SIZE + NONCE_SIZE + n + (BLOCK_SIZE - n % BLOCK_SIZE) + TAG_SIZE
  }

  /** The overhead is the most that encryption adds; only the padding can stay below it. */
  lemma OverheadSuffices(vsn: byte, n: nat)
    requires vsn <= MAX_VERSION
    ensures EncryptedLength(vsn, n) <= n + EncryptOverhead(vsn)
    ensures EncryptedLength(vsn, n) == n + EncryptOverhead(vsn) <==> vsn == 1 || n % BLOCK_SIZE == 0
  {}

  // ---------------------------------------------------------------- encryption

  /** An authenticated cipher: arguments are the key, the nonce, the text and the associated data. */
  datatype Cipher = Cipher(seal: (Key, Bytes, Bytes, Bytes) -> Bytes, open: (Key, Bytes, Bytes, Bytes) -> Option<Bytes>)

  /** The key that sealed a text opens it again; sealing adds a tag. */
  ghost predicate Faithful(c: Cipher)
  {
    forall k, n, p, d :: |c.seal(k, n, p, d)| == |p| + TAG_SIZE && c.open(k, n, c.seal(k, n, p, d), d) == Some(p)
  }

  function Source(vsn: byte, msg: Bytes): (r: Bytes) { if vsn == 0 then Pad(msg, BLOCK_SIZE) else msg }

  function Encrypted(c: Cipher, vsn: byte, key: Key, nonce: Bytes, msg: Bytes, data: Bytes): (r: Bytes)
  {
    [vsn] + nonce + c.seal(key, nonce, Source(vsn, msg), data)
  }

  lemma EncryptedSize(c: Cipher, vsn: byte, key: Key, nonce: Bytes, msg: Bytes, data: Bytes)
    requires Faithful(c) && vsn <= MAX_VERSION && |nonce| == NONCE_SIZE
    ensures |Encrypted(c, vsn, key, nonce, msg, data)| == EncryptedLength(vsn, |msg|)
  {}

  /** Appends the encrypted message to a buffer, working in that buffer as the code does. */
  method EncryptPayload(c: Cipher, vsn: byte, key: Key, msg: Bytes, data: Bytes, nonce: Bytes, buffer: Bytes)
    returns (dst: Result<Bytes>)
    requires |nonce| == NONCE_SIZE
    ensures dst == if ValidKey(key) then Ok(buffer + Encrypted(c, vsn, key, nonce, msg, data)) else Err
  {
    if !ValidKey(key) { return Err; }
    var offset := |buffer|;
    var buf := buffer + [vsn];
    buf := buf + nonce;
    var afterNonce := |buf|;
    ghost var head := buf;
    if vsn == 0 {
      buf := buf + msg;
      buf := Pkcs7Encode(buf, offset + VERSION_SIZE + NONCE_SIZE, BLOCK_SIZE);
      assert (head + msg)[..afterNonce] == head && (head + msg)[afterNonce..] == msg;
      assert buf == head + Pad(msg, BLOCK_SIZE);
    }
    var slice := buf[offset..];
    var n := slice[VERSION_SIZE..VERSION_SIZE + NONCE_SIZE];
    assert n == head[offset + 1..] == nonce;
    var src := msg;
    if vsn == 0 {
      src := slice[VERSION_SIZE + NONCE_SIZE..];
      assert src == Pad(msg, BLOCK_SIZE);
    }
    var out := c.seal(key, n, src, data);
    assert buf[..afterNonce] == head;
    buf := buf[..afterNonce] + out;
    assert buf == buffer + ([vsn] + nonce + out);
    return Ok(buf);
  }

  // ---------------------------------------------------------------- decryption

  datatype Plain = Plain(msg: Bytes) | Refused | Crashed

  function Opened(c: Cipher, key: Key, msg: Bytes, data: Bytes): Option<Bytes>
    requires |msg| >= VERSION_SIZE + NONCE_SIZE
  {
    var start := VERSION_SIZE + NONCE_SIZE;
    if ValidKey(key) then c.open(key, msg[VERSION_SIZE..start], msg[start..], data) else None
  }

  /** What the first key that opens the packet makes of it. */
  function FirstOpened(c: Cipher, keys: seq<Key>, msg: Bytes, data: Bytes): Option<Bytes>
    requires |msg| >= VERSION_SIZE + NONCE_SIZE
  {
    if keys == [] then None
    else
      var plain := Opened(c, keys[0], msg, data);
      if plain.Some? then plain else FirstOpened(c, keys[1..], msg, data)
  }

  function Unpadded(vsn: byte, plain: Bytes): Plain
  {
    if vsn != 0 then Plain(plain)
    else match Unpad(plain) case Some(m) => Plain(m) case None => Crashed
  }

  function Decrypted(c: Cipher, keys: seq<Key>, msg: Bytes, data: Bytes): (r: Plain)
  {
    if |msg| == 0 || msg[0] > MAX_VERSION || |msg| < EncryptedLength(msg[0], 0) then Refused
    else match FirstOpened(c, keys, msg, data)
         case Some(plain) => Unpadded(msg[0], plain)
         case None => Refused
  }

  method DecryptPayload(c: Cipher, keys: seq<Key>, msg: Bytes, data: Bytes) returns (r: Plain)
    ensures r == Decrypted(c, keys, msg, data)
  {
    if |msg| == 0 { return Refused; }
    var vsn := msg[0];
    if vsn > MAX_VERSION { return Refused; }
    if |msg| < EncryptedLength(vsn, 0) { return Refused; }
    for i := 0 to |keys|
      invariant FirstOpened(c, keys, msg, data) == FirstOpened(c, keys[i..], msg, data)
    {
      assert keys[i..][1..] == keys[i + 1..];
      var plain := Opened(c, keys[i], msg, data);
      if plain.Some? { return Unpadded(vsn, plain.value); }
    }
    return Refused;
  }

  lemma {:induction false} OpenedBy(c: Cipher, keys: seq<Key>, msg: Bytes, data: Bytes, key: Key, plain: Bytes)
    requires |msg| >= VERSION_SIZE + NONCE_SIZE && key in keys && Opened(c, key, msg, data) == Some(plain)
    requires forall k :: k in keys && k != key ==> Opened(c, k, msg, data).None?
    ensures FirstOpened(c, keys, msg, data) == Some(plain)
  {
    if keys[0] != key { OpenedBy(c, keys[1..], msg, data, key, plain); }
  }

  /** A ring that holds the sender's key, and no other key that opens the packet, recovers the message. */
  lemma RoundTrip(c: Cipher, vsn: byte, key: Key, nonce: Bytes, msg: Bytes, data: Bytes, ring: seq<Key>)
    requires Faithful(c) && vsn <= MAX_VERSION && |nonce| == NONCE_SIZE && key in ring && ValidKey(key)
    requires forall k :: k in ring && k != key ==>
               c.open(k, nonce, c.seal(key, nonce, Source(vsn, msg), data), data).None?
    ensures Decrypted(c, ring, Encrypted(c, vsn, key, nonce, msg, data), data) == Plain(msg)
  {
    var packet, sealed := Encrypted(c, vsn, key, nonce, msg, data), c.seal(key, nonce, Source(vsn, msg), data);
    EncryptedSize(c, vsn, key, nonce, msg, data);
    assert packet[1..13] == nonce && packet[13..] == sealed;
    OpenedBy(c, ring, packet, data, key, Source(vsn, msg));
    PadUnpad(msg, BLOCK_SIZE);
  }

  lemma {:induction false} NoneOpens(c: Cipher, keys: seq<Key>, msg: Bytes, data: Bytes)
    requires |msg| >= VERSION_SIZE + NONCE_SIZE && forall k :: k in keys ==> Opened(c, k, msg, data).None?
    ensures FirstOpened(c, keys, msg, data).None?
  {
    if keys != [] { NoneOpens(c, keys[1..], msg, data); }
  }

  /** A search while another key is being removed recovers the message exactly if it does not miss
      the sender's key; otherwise the packet is refused, although the key is on the ring all the time. */
  lemma SearchDecides(c: Cipher, vsn: byte, key: Key, nonce: Bytes, msg: Bytes, data: Bytes,
                      ring: seq<Key>, r: nat, moves: seq<nat>)
    requires Faithful(c) && vsn <= MAX_VERSION && |nonce| == NONCE_SIZE && ValidKey(key)
    requires Distinct(ring) && r < |ring| && Pace(ring, r, moves) && key in ring && key != ring[r]
    requires forall k :: k in ring && k != key ==>
               c.open(k, nonce, c.seal(key, nonce, Source(vsn, msg), data), data).None?
    ensures Decrypted(c, Seen(ring, r, moves), Encrypted(c, vsn, key, nonce, msg, data), data)
            == if Misses(ring, r, moves, key) then Refused else Plain(msg)
  {
    hide Seen, Misses, Decrypted;
    SearchFinds(ring, r, moves, key);
    SeenOnly(ring, r, moves);
    if Misses(ring, r, moves, key) {
      RefusedWithout(c, vsn, key, nonce, msg, data, Seen(ring, r, moves));
    } else {
      RoundTrip(c, vsn, key, nonce, msg, data, Seen(ring, r, moves));
    }
  }

  lemma RefusedWithout(c: Cipher, vsn: byte, key: Key, nonce: Bytes, msg: Bytes, data: Bytes, keys: seq<Key>)
    requires Faithful(c) && vsn <= MAX_VERSION && |nonce| == NONCE_SIZE
    requires forall k :: k in keys ==> c.open(k, nonce, c.seal(key, nonce, Source(vsn, msg), data), data).None?
    ensures Decrypted(c, keys, Encrypted(c, vsn, key, nonce, msg, data), data) == Refused
  {
    var packet, sealed := Encrypted(c, vsn, key, nonce, msg, data), c.seal(key, nonce, Source(vsn, msg), data);
    EncryptedSize(c, vsn, key, nonce, msg, data);
    assert packet[1..13] == nonce && packet[13..] == sealed;
    NoneOpens(c, keys, packet, data);
  }

  /** Such a search: the reader has tried the first two of four keys when the second is removed, and
      misses the third, which stays on the ring. */
  lemma RemovalHidesKey(c: Cipher, vsn: byte, ring: seq<Key>, nonce: Bytes, msg: Bytes, data: Bytes)
    requires Faithful(c) && vsn <= MAX_VERSION && |nonce| == NONCE_SIZE && |ring| == 4 && Proper(ring)
    requires forall k :: k in ring && k != ring[2] ==>
               c.open(k, nonce, c.seal(ring[2], nonce, Source(vsn, msg), data), data).None?
    ensures ring[2] in Apply(ring, RemoveKey(ring[1]))
    ensures Decrypted(c, ring[..2] + Shifting(ring, 1, 2)[2..], Encrypted(c, vsn, ring[2], nonce, msg, data), data)
            == Refused
  {
    ApplyIs(ring, RemoveKey(ring[1]));
    var moves: seq<nat> := [0, 0, 2, 2];
    assert ring[..2] + Shifting(ring, 1, 2)[2..] == Seen(ring, 1, moves);
    assert moves[2 - 1] < 2 - 1 < moves[2];
    hide Decrypted, Seen, Apply;
    SearchDecides(c, vsn, ring[2], nonce, msg, data, ring, 1, moves);
  }

  /** Removing the padding fails exactly for an opened version 0 packet whose plaintext is empty or
      ends in a byte beyond its length; by the theorem above, none that was padded does. */
  lemma CrashesExactly(c: Cipher, keys: seq<Key>, msg: Bytes, data: Bytes)
    ensures Decrypted(c, keys, msg, data).Crashed? <==>
              && |msg| >= EncryptedLength(0, 0) && msg[0] == 0
              && FirstOpened(c, keys, msg, data).Some?
              && var plain := FirstOpened(c, keys, msg, data).value;
                 plain == [] || plain[|plain| - 1] > |plain|
  {}

  /** The version byte is not part of what is sealed: a version 1 packet marked as version 0 is opened,
      and its plaintext then taken for a padded one. */
  lemma VersionNotSealed(c: Cipher, key: Key, nonce: Bytes, plain: Bytes, data: Bytes, ring: seq<Key>)
    requires Faithful(c) && |nonce| == NONCE_SIZE && key in ring && ValidKey(key) && |plain| >= BLOCK_SIZE
    requires forall k :: k in ring && k != key ==> c.open(k, nonce, c.seal(key, nonce, plain, data), data).None?
    ensures var last: int := plain[|plain| - 1];
            Decrypted(c, ring, Encrypted(c, 1, key, nonce, plain, data)[0 := 0], data)
            == if last > |plain| then Crashed else Plain(plain[..|plain| - last])
  {
    var sealed := c.seal(key, nonce, plain, data);
    var packet: Bytes := Encrypted(c, 1, key, nonce, plain, data)[0 := 0];
    assert |sealed| == |plain| + TAG_SIZE;
    assert packet[1..13] == nonce && packet[13..] == sealed;
    OpenedBy(c, ring, packet, data, key, plain);
  }

  /** A packet is refused exactly if it is empty, of an unknown version or too short for its version, or
      if no valid key of the ring opens it. */
  lemma RefusedExactly(c: Cipher, keys: seq<Key>, msg: Bytes, data: Bytes)
    ensures Decrypted(c, keys, msg, data).Refused? <==>
              || msg == [] || msg[0] > 1 || |msg| < (if msg[0] == 0 then 45 else 29)
              || forall k :: k in keys && ValidKey(k) ==> c.open(k, msg[1..13], msg[13..], data).None?
  {
    if msg != [] && msg[0] <= 1 && |msg| >= (if msg[0] == 0 then 45 else 29) {
      OpenedSome(c, keys, msg, data);
      hide FirstOpened;
      assert forall k :: Opened(c, k, msg, data).Some? <==> ValidKey(k) && c.open(k, msg[1..13], msg[13..], data).Some?;
    }
  }

  lemma {:induction false} OpenedSome(c: Cipher, keys: seq<Key>, msg: Bytes, data: Bytes)
    requires |msg| >= VERSION_SIZE + NONCE_SIZE
    ensures FirstOpened(c, keys, msg, data).Some? <==> exists k :: k in keys && Opened(c, k, msg, data).Some?
  {
    if keys != [] {
      OpenedSome(c, keys[1..], msg, data);
      assert forall k :: k in keys <==> k == keys[0] || k in keys[1..];
    }
  }
}
