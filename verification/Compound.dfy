/** Compound messages (util.go): a count byte, the lengths as 16-bit numbers, and the messages. */
module Compound {
  import opened Base

  const COMPOUND_MSG: byte := 7
  const MAX_MSGS: nat := 255
  const MAX_LEN: nat := 65535

  // ---------------------------------------------------------------- 16-bit big-endian numbers

  /** Go's conversion to uint16 followed by a big-endian write: the high bits are lost. */
  function Put16(n: nat): (r: Bytes)
    ensures |r| == 2
  {
    [n / 256 % 256, n % 256]
  }

  function Get16(a: byte, b: byte): (n: nat) { 256 * a + b }

  lemma Wrap16(n: nat)
    ensures Get16(Put16(n)[0], Put16(n)[1]) == n % 65536
  {
    assert n == 65536 * (n / 65536) + 256 * (n / 256 % 256) + n % 256;
  }

  // ---------------------------------------------------------------- format

  function Lengths(msgs: seq<Bytes>): (r: Bytes)
    ensures |r| == 2 * |msgs|
  {
    if msgs == [] then [] else Put16(|msgs[0]|) + Lengths(msgs[1..])
  }

  function Concat(msgs: seq<Bytes>): (r: Bytes)
  {
    if msgs == [] then [] else msgs[0] + Concat(msgs[1..])
  }

  function Encode(msgs: seq<Bytes>): (r: Bytes)
  {
    [COMPOUND_MSG, |msgs| % 256] + Lengths(msgs) + Concat(msgs)
  }

  /** `trunc` counts the messages that were announced but not wholly there. */
  datatype Parts = Parts(trunc: nat, parts: seq<Bytes>)

  /** The lengths announced by the first `n` pairs of bytes. */
  function Announced(buf: Bytes, n: nat): (r: seq<nat>)
    requires 2 * n <= |buf|
    ensures |r| == n
  {
    if n == 0 then [] else [Get16(buf[0], buf[1])] + Announced(buf[2..], n - 1)
  }

  /** Cut a body at the given lengths, up to the first that is not wholly there. */
  function Split(body: Bytes, lengths: seq<nat>): (r: Parts)
  {
    if lengths == [] then Parts(0, [])
    else if |body| < lengths[0] then Parts(|lengths|, [])
    else
      var rest := Split(body[lengths[0]..], lengths[1..]);
      Parts(rest.trunc, [body[..lengths[0]]] + rest.parts)
  }

  /** Decoding, without the leading type byte. */
  function Decode(buf: Bytes): (r: Result<Parts>)
  {
    if |buf| < 1 then Err
    else
      var n: int := buf[0];
      var rest := buf[1..];
      if |rest| < 2 * n then Err else Ok(Split(rest[2 * n..], Announced(rest, n)))
  }

  // ---------------------------------------------------------------- the code, in its own form

  method MakeCompoundMessage(msgs: seq<Bytes>) returns (buf: Bytes)
    ensures buf == Encode(msgs)
  {
    buf := [COMPOUND_MSG];
    buf := buf + [|msgs| % 256];
    ghost var head := buf;
    for i := 0 to |msgs|
      invariant buf + Lengths(msgs[i..]) == head + Lengths(msgs)
    {
      assert msgs[i..][1..] == msgs[i + 1..];
      assert buf + (Put16(|msgs[i]|) + Lengths(msgs[i + 1..])) == buf + Put16(|msgs[i]|) + Lengths(msgs[i + 1..]);
      buf := buf + Put16(|msgs[i]|);
    }
    assert buf + [] == buf;
    for i := 0 to |msgs|
      invariant buf + Concat(msgs[i..]) == head + Lengths(msgs) + Concat(msgs)
    {
      assert msgs[i..][1..] == msgs[i + 1..];
      assert buf + (msgs[i] + Concat(msgs[i + 1..])) == buf + msgs[i] + Concat(msgs[i + 1..]);
      buf := buf + msgs[i];
    }
    assert buf + [] == buf;
  }

  /** The first loop of decoding: read the lengths. */
  method ReadLengths(buf: Bytes, numParts: nat) returns (lengths: seq<nat>)
    requires 2 * numParts <= |buf|
    ensures lengths == Announced(buf, numParts)
  {
    lengths := [];
    for i := 0 to numParts
      invariant lengths + Announced(buf[2 * i..], numParts - i) == Announced(buf, numParts)
    {
      assert buf[2 * i..][2..] == buf[2 * (i + 1)..];
      ghost var was := lengths;
      lengths := lengths + [Get16(buf[i * 2], buf[i * 2 + 1])];
      assert was + ([Get16(buf[i * 2], buf[i * 2 + 1])] + Announced(buf[2 * (i + 1)..], numParts - i - 1))
          == lengths + Announced(buf[2 * (i + 1)..], numParts - i - 1);
    }
    assert lengths + [] == lengths;
  }

  /** The second loop: cut out the messages. */
  method SplitBody(body: Bytes, lengths: seq<nat>) returns (r: Parts)
    ensures r == Split(body, lengths)
  {
    var buf, parts, idx := body, [], 0;
    while idx < |lengths|
      invariant 0 <= idx <= |lengths|
      invariant var rest := Split(buf, lengths[idx..]);
                Split(body, lengths) == Parts(rest.trunc, parts + rest.parts)
    {
      if |buf| < lengths[idx] {
        assert parts + [] == parts;
        return Parts(|lengths| - idx, parts);
      }
      assert lengths[idx..][1..] == lengths[idx + 1..];
      ghost var was := parts;
      var slice := buf[..lengths[idx]];
      buf := buf[lengths[idx]..];
      parts := parts + [slice];
      assert was + ([slice] + Split(buf, lengths[idx + 1..]).parts) == parts + Split(buf, lengths[idx + 1..]).parts;
      idx := idx + 1;
    }
    assert parts + [] == parts;
    return Parts(0, parts);
  }

  method DecodeCompoundMessage(packet: Bytes) returns (r: Result<Parts>)
    ensures r == Decode(packet)
  {
    if |packet| < 1 { return Err; }
    var numParts: int := packet[0];
    var buf := packet[1..];
    if |buf| < numParts * 2 { return Err; }
    var lengths := ReadLengths(buf, numParts);
    var parts := SplitBody(buf[numParts * 2..], lengths);
    return Ok(parts);
  }

  // ---------------------------------------------------------------- round trip

  lemma {:induction false} AnnouncedIs(msgs: seq<Bytes>, tail: Bytes)
    ensures var r := Announced(Lengths(msgs) + tail, |msgs|);
            forall i :: 0 <= i < |msgs| ==> r[i] == |msgs[i]| % 65536
  {
    if msgs != [] {
      AnnouncedIs(msgs[1..], tail);
      Wrap16(|msgs[0]|);
      var buf := Lengths(msgs) + tail;
      assert buf[2..] == Lengths(msgs[1..]) + tail;
    }
  }

  predicate Encodable(msgs: seq<Bytes>)
  {
    |msgs| <= MAX_MSGS && forall m :: m in msgs ==> |m| <= MAX_LEN
  }

  /** How many of the messages are wholly within the first `n` bytes. */
  function Whole(msgs: seq<Bytes>, n: nat): (k: nat)
    ensures k <= |msgs|
  {
    if msgs == [] || n < |msgs[0]| then 0 else 1 + Whole(msgs[1..], n - |msgs[0]|)
  }

  lemma {:induction false} SplitPrefix(msgs: seq<Bytes>, lengths: seq<nat>, n: nat)
    requires |lengths| == |msgs| && n <= |Concat(msgs)|
    requires forall i :: 0 <= i < |msgs| ==> lengths[i] == |msgs[i]|
    ensures var k := Whole(msgs, n);
            Split(Concat(msgs)[..n], lengths) == Parts(|msgs| - k, msgs[..k])
  {
    if msgs != [] && |msgs[0]| <= n {
      var body, m := Concat(msgs)[..n], |msgs[0]|;
      assert body[..m] == msgs[0];
      assert body[m..] == Concat(msgs[1..])[..n - m];
      SplitPrefix(msgs[1..], lengths[1..], n - m);
      var k := Whole(msgs[1..], n - m);
      assert [msgs[0]] + msgs[1..][..k] == msgs[..1 + k];
    }
  }

  lemma {:induction false} WholeAll(msgs: seq<Bytes>)
    ensures Whole(msgs, |Concat(msgs)|) == |msgs|
  {
    if msgs != [] { WholeAll(msgs[1..]); }
  }

  lemma DecodeParts(n: byte, lens: Bytes, body: Bytes)
    requires |lens| == 2 * n
    ensures Decode([n] + lens + body) == Ok(Split(body, Announced(lens + body, n)))
  {
    var buf := [n] + lens + body;
    assert buf[1..] == lens + body;
    assert buf[1..][2 * n..] == body;
  }

  lemma CutAfter(kind: byte, count: byte, lens: Bytes, body: Bytes, n: nat)
    requires n <= |body|
    ensures ([kind, count] + lens + body)[1..2 + |lens| + n] == [count] + lens + body[..n]
  {}

  /** A compound message cut off inside its body decodes to the messages that are wholly there, in
      order, and counts the others as truncated. */
  lemma TruncatedDecode(msgs: seq<Bytes>, n: nat)
    requires Encodable(msgs) && n <= |Concat(msgs)|
    ensures var k := Whole(msgs, n);
            Decode(Encode(msgs)[1..2 + 2 * |msgs| + n]) == Ok(Parts(|msgs| - k, msgs[..k]))
  {
    hide Decode, Lengths, Concat, Split, Announced;
    var lens, body := Lengths(msgs), Concat(msgs)[..n];
    CutAfter(COMPOUND_MSG, |msgs|, lens, Concat(msgs), n);
    DecodeParts(|msgs|, lens, body);
    AnnouncedIs(msgs, body);
    SplitPrefix(msgs, Announced(lens + body, |msgs|), n);
  }

  lemma {:induction false} SplitCounts(body: Bytes, lengths: seq<nat>)
    ensures var r := Split(body, lengths);
            |r.parts| + r.trunc == |lengths| && forall i :: 0 <= i < |r.parts| ==> |r.parts[i]| == lengths[i]
  {
    if lengths != [] && lengths[0] <= |body| { SplitCounts(body[lengths[0]..], lengths[1..]); }
  }

  lemma {:induction false} AnnouncedAtMost(buf: Bytes, n: nat)
    requires 2 * n <= |buf|
    ensures forall i :: 0 <= i < n ==> Announced(buf, n)[i] <= MAX_LEN
  {
    if n > 0 { AnnouncedAtMost(buf[2..], n - 1); }
  }

  /** Nothing but up to 255 messages of up to 65535 bytes is ever decoded without truncation. */
  lemma DecodedEncodable(buf: Bytes, msgs: seq<Bytes>)
    requires Decode(buf) == Ok(Parts(0, msgs))
    ensures Encodable(msgs)
  {
    var n: int := buf[0];
    var rest := buf[1..];
    AnnouncedAtMost(rest, n);
    SplitCounts(rest[2 * n..], Announced(rest, n));
    hide Split, Announced;
    assert forall i :: 0 <= i < |msgs| ==> |msgs[i]| == Announced(rest, n)[i];
  }

  /** Decoding undoes encoding exactly for up to 255 messages of up to 65535 bytes each. */
  lemma RoundTrip(msgs: seq<Bytes>)
    ensures Decode(Encode(msgs)[1..]) == Ok(Parts(0, msgs)) <==> Encodable(msgs)
  {
    var buf := Encode(msgs)[1..];
    assert |Encode(msgs)| == 2 + 2 * |msgs| + |Concat(msgs)|;
    hide Encode, Decode, Encodable, Concat;
    if Encodable(msgs) {
      assert buf == Encode(msgs)[1..2 + 2 * |msgs| + |Concat(msgs)|];
      WholeAll(msgs);
      TruncatedDecode(msgs, |Concat(msgs)|);
      assert msgs[..|msgs|] == msgs;
    } else if Decode(buf) == Ok(Parts(0, msgs)) {
      DecodedEncodable(buf, msgs);
    }
  }

  /** No decoded byte is invented: the parts, put together, are a prefix of the body. */
  lemma {:induction false} SplitIsPrefix(body: Bytes, lengths: seq<nat>)
    ensures Concat(Split(body, lengths).parts) <= body
  {
    if lengths != [] && lengths[0] <= |body| {
      SplitIsPrefix(body[lengths[0]..], lengths[1..]);
      assert body == body[..lengths[0]] + body[lengths[0]..];
    }
  }

  // ---------------------------------------------------------------- any number of messages

  /** Split into runs of 255. */
  function Chunks(msgs: seq<Bytes>): (r: seq<seq<Bytes>>)
    decreases |msgs|
  {
    if msgs == [] then [] else if |msgs| <= MAX_MSGS then [msgs] else [msgs[..MAX_MSGS]] + Chunks(msgs[MAX_MSGS..])
  }

  function EncodeAll(chunks: seq<seq<Bytes>>): (r: seq<Bytes>)
  {
    if chunks == [] then [] else [Encode(chunks[0])] + EncodeAll(chunks[1..])
  }

  method MakeCompoundMessages(messages: seq<Bytes>) returns (bufs: seq<Bytes>)
    ensures bufs == EncodeAll(Chunks(messages))
  {
    var msgs := messages;
    bufs := [];
    while |msgs| > MAX_MSGS
      invariant bufs + EncodeAll(Chunks(msgs)) == EncodeAll(Chunks(messages))
      decreases |msgs|
    {
      var c := Chunks(msgs[MAX_MSGS..]);
      assert ([msgs[..MAX_MSGS]] + c)[1..] == c;
      assert bufs + ([Encode(msgs[..MAX_MSGS])] + EncodeAll(c)) == bufs + [Encode(msgs[..MAX_MSGS])] + EncodeAll(c);
      var buf := MakeCompoundMessage(msgs[..MAX_MSGS]);
      bufs := bufs + [buf];
      msgs := msgs[MAX_MSGS..];
    }
    if |msgs| > 0 {
      assert [msgs][1..] == [];
      assert EncodeAll(Chunks(msgs)) == [Encode(msgs)];
      var buf := MakeCompoundMessage(msgs);
      bufs := bufs + [buf];
    } else {
      assert bufs + [] == bufs;
    }
  }

  function Flatten(chunks: seq<seq<Bytes>>): seq<Bytes>
  {
    if chunks == [] then [] else chunks[0] + Flatten(chunks[1..])
  }

  /** The chunks hold the messages in order, and each of them can be encoded. */
  lemma {:induction false} ChunksKeep(msgs: seq<Bytes>)
    requires forall m :: m in msgs ==> |m| <= MAX_LEN
    ensures Flatten(Chunks(msgs)) == msgs
    ensures forall c :: c in Chunks(msgs) ==> Encodable(c) && c != []
    decreases |msgs|
  {
    if |msgs| > MAX_MSGS {
      ChunksKeep(msgs[MAX_MSGS..]);
      var rest := Chunks(msgs[MAX_MSGS..]);
      assert ([msgs[..MAX_MSGS]] + rest)[1..] == rest;
      assert msgs == msgs[..MAX_MSGS] + msgs[MAX_MSGS..];
    } else if msgs != [] {
      assert [msgs][1..] == [] && msgs + [] == msgs;
    }
  }

  lemma OneChunk(msgs: seq<Bytes>)
    requires 1 <= |msgs| <= MAX_MSGS
    ensures EncodeAll(Chunks(msgs)) == [Encode(msgs)]
  {
    assert [msgs][1..] == [];
  }

  /** Decoding fails exactly if the count or some of the lengths are missing. */
  lemma DecodeFails(buf: Bytes)
    ensures Decode(buf).Err? <==> buf == [] || (var n: int := buf[0]; |buf| < 1 + 2 * n)
  {}

  // ---------------------------------------------------------------- the bytes on the wire

  lemma {:induction false} LengthsAt(msgs: seq<Bytes>, i: nat)
    requires i < |msgs|
    ensures Lengths(msgs)[2 * i] == |msgs[i]| / 256 % 256 && Lengths(msgs)[2 * i + 1] == |msgs[i]| % 256
    decreases i
  {
    if i > 0 { LengthsAt(msgs[1..], i - 1); }
  }

  lemma {:induction false} ConcatAt(msgs: seq<Bytes>, i: nat)
    requires i < |msgs|
    ensures Concat(msgs) == Concat(msgs[..i]) + msgs[i] + Concat(msgs[i + 1..])
    decreases i
  {
    if i == 0 {
      assert [] + msgs[0] == msgs[0];
    } else {
      ConcatAt(msgs[1..], i - 1);
      assert msgs[..i][1..] == msgs[1..][..i - 1] && msgs[1..][i..] == msgs[i + 1..];
      var first, middle, rest := msgs[0], Concat(msgs[1..][..i - 1]), Concat(msgs[i + 1..]);
      assert first + (middle + msgs[i] + rest) == (first + middle) + msgs[i] + rest;
    }
  }

  /** A compound is its type, the count, every length with the high byte first, and then every message. */
  lemma EncodeLayout(msgs: seq<Bytes>, i: nat)
    requires i < |msgs|
    ensures var buf, start := Encode(msgs), 2 + 2 * |msgs| + |Concat(msgs[..i])|;
            && |buf| >= start + |msgs[i]| && buf[0] == 7 && buf[1] == |msgs| % 256
            && buf[2 + 2 * i] == |msgs[i]| / 256 % 256 && buf[3 + 2 * i] == |msgs[i]| % 256
            && buf[start..start + |msgs[i]|] == msgs[i]
  {
    LengthsAt(msgs, i);
    ConcatAt(msgs, i);
  }
}
