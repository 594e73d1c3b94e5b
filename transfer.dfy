/** A whole transfer: the frames a successful sender hands to the link, read
    by a receiver that has just been started. Also the truncation to the
    declared size that the receiver's FIN handling announces but does not do. */
module Transfer {
  import opened PacketCodec
  import opened Sender
  import opened Receiver

  /** The largest size for which the receiver's uint32 block count is exact. */
  const MAX_TRANSFER_SIZE: int := 0xFFFF_FFFF - 26

  /** The output file cut to the declared size, as lines 308-318 intend;
      cutting never lengthens the file. */
  function TruncateTo(sink: seq<byte>, size: nat): (f: seq<byte>)
    ensures |f| == Min(size, |sink|)
    ensures f == sink[..|f|]
  {
    if size <= |sink| then sink[..size] else sink
  }

  /** The file the receiver should leave behind once FIN arrives. */
  function ReceivedFile(s: RxState): (f: seq<byte>)
    ensures |f| <= s.expectedSize && |f| <= |s.sink| && f == s.sink[..|f|]
  {
    TruncateTo(s.sink, s.expectedSize)
  }

  /** b begins with x and, when zeroTail holds, is zero after it. */
  predicate PrefixThenZeros(b: seq<byte>, x: seq<byte>, zeroTail: bool)
  {
    |x| <= |b| && b[..|x|] == x && (zeroTail ==> forall t :: |x| <= t < |b| ==> b[t] == 0)
  }

  /** A block put in front of both keeps the shape. */
  lemma PrefixThenZerosCons(c: seq<byte>, b: seq<byte>, x: seq<byte>, zeroTail: bool)
    requires PrefixThenZeros(b, x, zeroTail)
    ensures PrefixThenZeros(c + b, c + x, zeroTail)
  {
    assert (c + b)[..|c + x|] == c + b[..|x|];
    if zeroTail {
      forall t | |c + x| <= t < |c + b|
        ensures (c + b)[t] == 0
      {
        assert (c + b)[t] == b[t - |c|];
      }
    }
  }

  /** The bytes written for the DATA packets from block j on: the readable
      content up to the declared size, then (when the content ends before the
      declared size) zero padding up to the block boundary. */
  predicate SinkFrom(size: int, content: seq<byte>, j: nat)
    requires 0 < size < 0x1_0000_0000
    requires 27 * j <= Min(size, |content|)
  {
    var m := Min(size, |content|);
    PrefixThenZeros(Payloads(DataPackets(size, content, 27 * j, j)), content[27 * j..m], |content| <= size)
  }

  lemma {:induction false} SinkLayout(size: int, content: seq<byte>, j: nat)
    requires 0 < size < 0x1_0000_0000
    requires 27 * j <= Min(size, |content|)
    ensures SinkFrom(size, content, j)
    decreases size - 27 * j
  {
    var m := Min(size, |content|);
    if 27 * j == m {
      assert DataPackets(size, content, 27 * j, j) == [];
    } else if 27 * j + 27 <= m {
      SinkLayout(size, content, j + 1);
      SinkFullBlock(size, content, j);
    } else {
      SinkLastBlock(size, content, j);
    }
  }

  /** A full block in front of the rest of the output. */
  lemma SinkFullBlock(size: int, content: seq<byte>, j: nat)
    requires 0 < size < 0x1_0000_0000
    requires 27 * j + 27 <= Min(size, |content|)
    requires SinkFrom(size, content, j + 1)
    ensures SinkFrom(size, content, j)
  {
    var m := Min(size, |content|);
    var pos := 27 * j;
    var c := ReadChunk(content, pos);
    assert |c| == 27 && Padded(c) == c;
    assert 27 * (j + 1) == pos + 27;
    DataPacketsUnfold(size, content, pos, j);
    var rest := DataPackets(size, content, pos + 27, j + 1);
    var d := DataPackets(size, content, pos, j);
    PayloadsCons(DataPacket(j, c), rest);
    assert c == content[pos..pos + 27];
    SliceSplit(content, pos, pos + 27, m);
    PrefixThenZerosCons(c, Payloads(rest), content[pos + 27..m], |content| <= size);
  }

  lemma SliceSplit(s: seq<byte>, a: nat, b: nat, e: nat)
    requires a <= b <= e <= |s|
    ensures s[a..e] == s[a..b] + s[b..e]
  {
  }

  /** The block in which the readable content or the declared size ends is
      the last one written. */
  lemma SinkLastBlock(size: int, content: seq<byte>, j: nat)
    requires 0 < size < 0x1_0000_0000
    requires 27 * j < Min(size, |content|) < 27 * j + 27
    ensures SinkFrom(size, content, j)
  {
    var m := Min(size, |content|);
    var pos := 27 * j;
    var c := ReadChunk(content, pos);
    var rest := DataPackets(size, content, pos + |c|, j + 1);
    assert rest == [];
    var d := DataPackets(size, content, pos, j);
    assert d == [DataPacket(j, c)];
    var b := Payloads(d);
    assert b == Padded(c) + [];
    assert m - pos <= |c|;
    assert b[..m - pos] == c[..m - pos];
    if |content| <= size {
      assert |c| == m - pos;
    }
  }

  /** A fresh receiver fed a sender's whole plan (and anything after it)
      reads exactly the plan and returns success, with every DATA payload
      written and the blocks counted. */
  lemma RunPlan(size: int, content: seq<byte>, later: seq<Packet>)
    requires 0 < size <= MAX_TRANSFER_SIZE
    ensures var d := DataPackets(size, content, 0, 0);
      Run(FRESH, Plan(size, content) + later, true) ==
        (RxState(true, size, BlocksFor(size), |d|, Payloads(d)), Done(true), |d| + 2)
  {
    var d := DataPackets(size, content, 0, 0);
    var fin := FinPacket(|d|);
    var session := RxState(true, size, BlocksFor(size), 0, []);
    ExpectedBlocksIsBlockCount(size);
    assert Next(FRESH, HeaderPacket(size), true) == (session, Continue);
    assert Plan(size, content) + later == [HeaderPacket(size)] + (d + ([fin] + later));
    assert Run(FRESH, Plan(size, content) + later, true).2 == Run(session, d + ([fin] + later), true).2 + 1;
    DataRun(session, d, [fin] + later, true);
    var full := session.(sink := [] + Payloads(d), receivedBlocks := |d|);
    assert full == RxState(true, size, BlocksFor(size), |d|, Payloads(d));
    assert ([fin] + later)[0] == fin;
    assert Run(full, [fin] + later, true) == (full, Done(true), 1);
  }

  /** The output the DATA phase of a plan produces: one 27-byte block per
      DATA packet, starting with the first min(size, readable bytes) bytes of
      the file and, after a short read, zeros up to the block boundary. */
  lemma SinkContents(size: int, content: seq<byte>)
    requires 0 < size < 0x1_0000_0000
    ensures var m := Min(size, |content|);
      var b := Payloads(DataPackets(size, content, 0, 0));
      |b| == 27 * BlocksFor(m) && m <= |b| && b[..m] == content[..m] &&
      (|content| <= size ==> forall t :: m <= t < |b| ==> b[t] == 0)
  {
    DataPacketsLayout(size, content, 0);
    SinkLayout(size, content, 0);
  }

  /** The end-to-end round trip. Whatever the sender reports as a successful
      transfer, sent as frames and read by a fresh receiver, ends with the
      receiver returning success after reading every frame; it has written
      one 27-byte block per DATA packet, its first min(size, readable bytes)
      bytes are the file's, its block counter equals the FIN's sequence
      field, and the output truncated to the declared size begins with that
      prefix of the file and, when the file had at least the declared size,
      is exactly its first size bytes. */
  lemma TransferRoundTrip(size: int, content: seq<byte>, outcomes: seq<bool>)
    requires 0 < size <= MAX_TRANSFER_SIZE
    requires SendOutcome(Readable(size, content), outcomes).1
    ensures var sent := SendOutcome(Readable(size, content), outcomes).0;
      var m := Min(size, |content|);
      var (s, r, n) := Run(FRESH, DecodeAll(EncodeAll(sent)), true);
      r == Done(true) && n == |sent| &&
      |s.sink| == 27 * BlocksFor(m) &&
      m <= |s.sink| && s.sink[..m] == content[..m] &&
      s.receivedBlocks == sent[|sent| - 1].sequence == BlocksFor(m) &&
      s.expectedSize == size && s.expectedBlocks == BlocksFor(size) &&
      m <= |ReceivedFile(s)| && ReceivedFile(s)[..m] == content[..m] &&
      (size <= |content| ==> ReceivedFile(s) == content[..size])
  {
    var sent := SendOutcome(Readable(size, content), outcomes).0;
    var m := Min(size, |content|);
    var d := DataPackets(size, content, 0, 0);
    assert sent == Plan(size, content);
    DecodeAllEncodeAll(sent);
    assert sent + [] == sent;
    RunPlan(size, content, []);
    DataPacketsLayout(size, content, 0);
    SinkContents(size, content);
    var s := Run(FRESH, sent, true).0;
    assert s.sink == Payloads(d);
    PrefixOfTruncation(s.sink, size, m);
  }

  /** Cutting a file to n bytes keeps every prefix of at most n bytes. */
  lemma PrefixOfTruncation(sink: seq<byte>, n: nat, m: nat)
    requires m <= n && m <= |sink|
    ensures m <= |TruncateTo(sink, n)| && TruncateTo(sink, n)[..m] == sink[..m]
  {
  }

  /** The output file as the code leaves it: when the whole file is read, it
      is longer than the file by (27 - size mod 27) mod 27 bytes, all zero,
      so it equals the file only when the size is a multiple of 27. */
  lemma OutputKeepsPadding(content: seq<byte>, outcomes: seq<bool>)
    requires 0 < |content| <= MAX_TRANSFER_SIZE
    requires SendOutcome(Readable(|content|, content), outcomes).1
    ensures var sent := SendOutcome(Readable(|content|, content), outcomes).0;
      var s := Run(FRESH, DecodeAll(EncodeAll(sent)), true).0;
      |s.sink| == |content| + (27 - |content| % 27) % 27 &&
      s.sink[..|content|] == content &&
      (forall t :: |content| <= t < |s.sink| ==> s.sink[t] == 0) &&
      (s.sink == content <==> |content| % 27 == 0)
  {
    var size := |content|;
    var sent := SendOutcome(Readable(size, content), outcomes).0;
    assert sent == Plan(size, content);
    DecodeAllEncodeAll(sent);
    assert sent + [] == sent;
    RunPlan(size, content, []);
    SinkContents(size, content);
    assert content[..size] == content;
    PaddedLength(size);
    var sink := Run(FRESH, sent, true).0.sink;
    PaddingIsExtra(sink, content);
  }

  /** A file followed by its block padding is the file itself exactly when
      there is no padding. */
  lemma PaddingIsExtra(sink: seq<byte>, content: seq<byte>)
    requires |sink| == |content| + (27 - |content| % 27) % 27
    requires |content| <= |sink| && sink[..|content|] == content
    ensures sink == content <==> |content| % 27 == 0
  {
    if |content| % 27 == 0 {
      assert sink == sink[..|content|];
    }
  }

  /** Whole blocks for n bytes hold n bytes plus the padding of the last one. */
  lemma PaddedLength(n: nat)
    ensures 27 * BlocksFor(n) == n + (27 - n % 27) % 27
  {
    var q, r := n / 27, n % 27;
    assert n == 27 * q + r;
    if r == 0 {
      assert BlocksFor(n) == q;
    } else {
      assert BlocksFor(n) == q + 1;
    }
  }

  /** A 28-byte file: two DATA packets, FIN carrying 2, and a 54-byte output
      file of which the first 28 bytes are the file. */
  lemma TwentyEightBytes(content: seq<byte>)
    requires |content| == 28
    ensures var sent := SendOutcome(Readable(28, content), seq(4, _ => true));
      var s := Run(FRESH, sent.0, true).0;
      sent.1 && |sent.0| == 4 && sent.0[3] == FinPacket(2) &&
      |s.sink| == 54 && ReceivedFile(s) == content
  {
    var outcomes := seq(4, _ => true);
    SuccessfulSend(28, content, outcomes);
    var sent := SendOutcome(Readable(28, content), outcomes);
    assert sent.0 == Plan(28, content);
    assert sent.0 + [] == sent.0;
    TransferRoundTrip(28, content, outcomes);
    DecodeAllEncodeAll(sent.0);
  }
}
