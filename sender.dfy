/** The sender engine (enviar_archivo): one HEADER carrying the file size,
    DATA packets of at most 27 file bytes each, then one FIN carrying the
    number of DATA packets sent. Any failed write aborts the transfer. */
module Sender {
  import opened PacketCodec

  /** What the sender finds at its input path: a file it cannot open, or a
      file whose size (as tellg reports it) is `size` and whose successive
      reads yield the bytes of `content`. The two may differ: a read that
      finds no byte before `size` bytes are sent ends the DATA phase early. */
  datatype SourceFile = Unopenable | Readable(size: int, content: seq<byte>)

  /** The size fits the 32-bit sequence field of the HEADER. */
  predicate SizeFits(source: SourceFile)
  {
    source.Readable? ==> source.size < 0x1_0000_0000
  }

  /** Write number i (0 = HEADER) succeeds; an exhausted oracle fails. */
  predicate Succeeds(outcomes: seq<bool>, i: nat)
  {
    i < |outcomes| && outcomes[i]
  }

  function Min(a: int, b: int): int
  {
    if a <= b then a else b
  }

  /** One read of at most 27 bytes from stream position pos. */
  function ReadChunk(content: seq<byte>, pos: nat): (c: seq<byte>)
    ensures |c| <= DATA_BYTES
    ensures |c| > 0 <==> pos < |content|
    ensures pos < |content| ==> |c| == Min(DATA_BYTES, |content| - pos) && c == content[pos..pos + |c|]
  {
    if pos >= |content| then [] else content[pos..Min(pos + DATA_BYTES, |content|)]
  }

  /** A zeroed payload whose first bytes were filled by a read. */
  function Padded(chunk: seq<byte>): (p: Payload)
    requires |chunk| <= DATA_BYTES
    ensures |chunk| == DATA_BYTES ==> p == chunk
  {
    chunk + Zeros(DATA_BYTES - |chunk|)
  }

  /** The HEADER: a zeroed packet carrying the file size in its sequence
      field. */
  function HeaderPacket(size: u32): (h: Packet)
    ensures h.kind == TIPO_HEADER && h.sequence == size
  {
    Packet(TIPO_HEADER, size, Zeros(DATA_BYTES))
  }

  /** DATA number `index`: the bytes of one read, then zeros. */
  function DataPacket(index: u32, chunk: seq<byte>): (d: Packet)
    requires |chunk| <= DATA_BYTES
    ensures d.kind == TIPO_DATA && d.sequence == index
  {
    Packet(TIPO_DATA, index, Padded(chunk))
  }

  /** The FIN: a zeroed packet carrying the number of DATA packets sent. */
  function FinPacket(count: u32): (f: Packet)
    ensures f.kind == TIPO_FIN && f.sequence == count
  {
    Packet(TIPO_FIN, count, Zeros(DATA_BYTES))
  }

  /** The payloads memset and the read leave behind: the HEADER and the FIN
      carry only zeros, a DATA packet the bytes read followed by zeros. */
  lemma PacketPayloads(size: u32, index: u32, chunk: seq<byte>, count: u32)
    requires |chunk| <= DATA_BYTES
    ensures forall i :: 0 <= i < DATA_BYTES ==> HeaderPacket(size).data[i] == 0 && FinPacket(count).data[i] == 0
    ensures Padded(chunk)[..|chunk|] == chunk && DataPacket(index, chunk).data[..|chunk|] == chunk
    ensures forall i :: |chunk| <= i < DATA_BYTES ==> Padded(chunk)[i] == 0 && DataPacket(index, chunk).data[i] == 0
  {
    assert Padded(chunk)[..|chunk|] == chunk;
  }

  /** The DATA packets the loop builds from stream position pos on, with
      `index` packets already sent, provided every write succeeds. */
  function DataPackets(size: int, content: seq<byte>, pos: nat, index: nat): (d: seq<Packet>)
    requires index <= pos && size < 0x1_0000_0000
    ensures pos < size ==> |d| <= size - pos
    ensures pos >= size ==> d == []
    ensures forall i :: 0 <= i < |d| ==> d[i].kind == TIPO_DATA && d[i].sequence == index + i
    decreases |content| - pos
  {
    if pos >= size then []
    else
      var c := ReadChunk(content, pos);
      if |c| == 0 then []
      else [DataPacket(index, c)] + DataPackets(size, content, pos + |c|, index + 1)
  }

  /** Every packet a readable, non-empty file gives rise to, in order,
      when every write succeeds. */
  function Plan(size: int, content: seq<byte>): (plan: seq<Packet>)
    requires 0 < size < 0x1_0000_0000
    ensures |plan| >= 2 && plan[0] == HeaderPacket(size)
    ensures |plan| - 2 <= size && plan[|plan| - 1] == FinPacket(|plan| - 2)
    ensures forall i :: 1 <= i < |plan| - 1 ==> plan[i].kind == TIPO_DATA && plan[i].sequence == i - 1
  {
    var d := DataPackets(size, content, 0, 0);
    [HeaderPacket(size)] + d + [FinPacket(|d|)]
  }

  /** Hands the packets of `plan` to the link one after the other and stops
      at the first write that fails. Returns the packets handed over (the
      failed one included) and whether every write succeeded. */
  function Transmit(plan: seq<Packet>, outcomes: seq<bool>): (r: (seq<Packet>, bool))
    ensures |r.0| <= |plan|
  {
    if plan == [] then ([], true)
    else if !Succeeds(outcomes, 0) then ([plan[0]], false)
    else
      var rest := Transmit(plan[1..], outcomes[1..]);
      ([plan[0]] + rest.0, rest.1)
  }

  /** Transmission stops at the first failed write: the packets handed over
      are a prefix of the plan, the result is true exactly when every write
      succeeds (and then the whole plan went out), and on failure the failed
      packet is the last one handed over, every write before it successful. */
  lemma {:induction false} TransmitStops(plan: seq<Packet>, outcomes: seq<bool>)
    ensures var r := Transmit(plan, outcomes);
      r.0 == plan[..|r.0|] &&
      (r.1 <==> forall i :: 0 <= i < |plan| ==> Succeeds(outcomes, i)) &&
      (r.1 ==> r.0 == plan) &&
      (!r.1 ==> |r.0| > 0 && !Succeeds(outcomes, |r.0| - 1)) &&
      forall i :: 0 <= i < |r.0| - 1 ==> Succeeds(outcomes, i)
  {
    if plan != [] && Succeeds(outcomes, 0) {
      TransmitStops(plan[1..], outcomes[1..]);
      SucceedsShift(outcomes, |plan| - 1);
      var r := Transmit(plan, outcomes);
      var rest := Transmit(plan[1..], outcomes[1..]);
      assert r == ([plan[0]] + rest.0, rest.1);
      assert plan == [plan[0]] + plan[1..];
    }
  }

  /** Dropping the first outcome renumbers the remaining writes. */
  lemma SucceedsShift(outcomes: seq<bool>, n: nat)
    requires outcomes != []
    ensures forall i: nat :: Succeeds(outcomes[1..], i) == Succeeds(outcomes, i + 1)
    ensures forall i: nat :: 0 < i ==> Succeeds(outcomes, i) == Succeeds(outcomes[1..], i - 1)
    ensures (forall i :: 0 <= i < n + 1 ==> Succeeds(outcomes, i)) <==>
      Succeeds(outcomes, 0) && forall i :: 0 <= i < n ==> Succeeds(outcomes[1..], i)
  {
    assert forall i: nat :: Succeeds(outcomes[1..], i) == Succeeds(outcomes, i + 1);
    if Succeeds(outcomes, 0) && forall i :: 0 <= i < n ==> Succeeds(outcomes[1..], i) {
      forall i | 0 <= i < n + 1
        ensures Succeeds(outcomes, i)
      {
        if i > 0 {
          assert Succeeds(outcomes[1..], i - 1);
        }
      }
    }
  }

  /** The whole of enviar_archivo: the packets handed to the link and the
      result it returns. */
  function SendOutcome(source: SourceFile, outcomes: seq<bool>): (r: (seq<Packet>, bool))
    requires SizeFits(source)
    ensures source.Unopenable? || source.size <= 0 ==> r == ([], false)
    ensures source.Readable? && source.size > 0 ==>
      var plan := Plan(source.size, source.content);
      0 < |r.0| <= |plan| && r.0 == plan[..|r.0|] &&
      (r.1 <==> r.0 == plan && forall i :: 0 <= i < |plan| ==> Succeeds(outcomes, i))
  {
    if source.Unopenable? || source.size <= 0 then ([], false)
    else
      var plan := Plan(source.size, source.content);
      TransmitStops(plan, outcomes);
      Transmit(plan, outcomes)
  }

  /** When the first writes succeed, transmitting a + b hands over all of a
      and then continues with b. */
  lemma {:induction false} TransmitAppend(a: seq<Packet>, b: seq<Packet>, outcomes: seq<bool>)
    requires forall i :: 0 <= i < |a| ==> Succeeds(outcomes, i)
    ensures |a| <= |outcomes|
    ensures Transmit(a + b, outcomes) == (a + Transmit(b, outcomes[|a|..]).0, Transmit(b, outcomes[|a|..]).1)
  {
    if a != [] {
      FirstWritesShift(outcomes, |a| - 1);
      TransmitAppend(a[1..], b, outcomes[1..]);
      AppendStep(a, b, outcomes);
    } else {
      assert a + b == b && outcomes[|a|..] == outcomes;
      var whole := Transmit(b, outcomes);
      assert a + whole.0 == whole.0;
      assert whole == (whole.0, whole.1);
    }
  }

  /** Transmitting a + b hands over a and then continues with b. */
  predicate AppendAgrees(a: seq<Packet>, b: seq<Packet>, outcomes: seq<bool>)
  {
    |a| <= |outcomes| &&
    Transmit(a + b, outcomes) == (a + Transmit(b, outcomes[|a|..]).0, Transmit(b, outcomes[|a|..]).1)
  }

  /** One successful write more in front of a. */
  lemma AppendStep(a: seq<Packet>, b: seq<Packet>, outcomes: seq<bool>)
    requires a != [] && Succeeds(outcomes, 0) && Succeeds(outcomes, |a| - 1)
    requires AppendAgrees(a[1..], b, outcomes[1..])
    ensures AppendAgrees(a, b, outcomes)
  {
    assert outcomes[1..][|a| - 1..] == outcomes[|a|..];
    var tail := Transmit(b, outcomes[|a|..]);
    assert a + b == [a[0]] + (a[1..] + b);
    TransmitFirst(a[0], a[1..] + b, outcomes);
    assert [a[0]] + (a[1..] + tail.0) == a + tail.0;
  }

  /** The first n + 1 writes succeeding means the n writes after the first
      one succeed. */
  lemma FirstWritesShift(outcomes: seq<bool>, n: nat)
    requires forall i :: 0 <= i < n + 1 ==> Succeeds(outcomes, i)
    ensures outcomes != [] && forall i :: 0 <= i < n ==> Succeeds(outcomes[1..], i)
  {
    assert Succeeds(outcomes, 0);
    forall i | 0 <= i < n
      ensures Succeeds(outcomes[1..], i)
    {
      assert Succeeds(outcomes, i + 1);
    }
  }

  /** A successful first write hands the packet over and goes on. */
  lemma TransmitFirst(p: Packet, more: seq<Packet>, outcomes: seq<bool>)
    requires Succeeds(outcomes, 0)
    ensures var rest := Transmit(more, outcomes[1..]);
      Transmit([p] + more, outcomes) == ([p] + rest.0, rest.1)
  {
    assert ([p] + more)[1..] == more;
  }

  /** One iteration of the DATA loop, when every write succeeds. */
  lemma DataPacketsUnfold(size: int, content: seq<byte>, pos: nat, index: nat)
    requires index <= pos < size < 0x1_0000_0000
    ensures var c := ReadChunk(content, pos);
      DataPackets(size, content, pos, index) ==
        if |c| == 0 then [] else [DataPacket(index, c)] + DataPackets(size, content, pos + |c|, index + 1)
  {
  }

  /** What enviar_archivo still does from the top of its DATA loop, with
      the stream at position pos, `index` DATA packets sent, the packets
      `written` already handed to radio.write and `pending` the outcomes of
      the writes still to come: each pass reads a block, writes DATA number
      `index` and stops on a failed write; once a read finds nothing or the
      declared size is reached, the FIN carrying the count is written.
      Returns the packets written and the result. */
  function SendFrom(size: int, content: seq<byte>, pending: seq<bool>, pos: nat, index: nat, written: seq<Packet>): (r: (seq<Packet>, bool))
    requires index <= pos && index <= size < 0x1_0000_0000
    ensures |written| < |r.0|
    decreases |content| - pos
  {
    var c := if pos < size then ReadChunk(content, pos) else [];
    if |c| == 0 then (written + [FinPacket(index)], Succeeds(pending, 0))
    else
      var p := DataPacket(index, c);
      if !Succeeds(pending, 0) then (written + [p], false)
      else SendFrom(size, content, pending[1..], pos + |c|, index + 1, written + [p])
  }

  /** The packets of the plan from the top of the DATA loop on: the
      remaining DATA packets, then the FIN carrying the final count. */
  function PlanFrom(size: int, content: seq<byte>, pos: nat, index: nat): (rest: seq<Packet>)
    requires index <= pos && index <= size < 0x1_0000_0000
    ensures rest != []
    decreases |content| - pos
  {
    var c := if pos < size then ReadChunk(content, pos) else [];
    if |c| == 0 then [FinPacket(index)]
    else [DataPacket(index, c)] + PlanFrom(size, content, pos + |c|, index + 1)
  }

  /** PlanFrom is the rest of the DATA packets followed by the FIN. */
  predicate DataThenFin(size: int, content: seq<byte>, pos: nat, index: nat)
    requires index <= pos && index <= size < 0x1_0000_0000
  {
    var d := DataPackets(size, content, pos, index);
    index + |d| <= size && PlanFrom(size, content, pos, index) == d + [FinPacket(index + |d|)]
  }

  lemma {:induction false} PlanFromIsDataThenFin(size: int, content: seq<byte>, pos: nat, index: nat)
    requires index <= pos && index <= size < 0x1_0000_0000
    ensures DataThenFin(size, content, pos, index)
    decreases |content| - pos
  {
    var c := if pos < size then ReadChunk(content, pos) else [];
    if |c| == 0 {
      assert DataPackets(size, content, pos, index) == [];
    } else {
      PlanFromIsDataThenFin(size, content, pos + |c|, index + 1);
      DataThenFinStep(size, content, pos, index);
    }
  }

  /** One DATA packet more in front of both sides. */
  lemma DataThenFinStep(size: int, content: seq<byte>, pos: nat, index: nat)
    requires index <= pos < size < 0x1_0000_0000 && |ReadChunk(content, pos)| > 0
    requires DataThenFin(size, content, pos + |ReadChunk(content, pos)|, index + 1)
    ensures DataThenFin(size, content, pos, index)
  {
    var c := ReadChunk(content, pos);
    var p := DataPacket(index, c);
    DataPacketsUnfold(size, content, pos, index);
    var d := DataPackets(size, content, pos, index);
    var d' := DataPackets(size, content, pos + |c|, index + 1);
    var fin := FinPacket(index + 1 + |d'|);
    assert d == [p] + d';
    assert |d| == |d'| + 1;
    assert FinPacket(index + |d|) == fin;
    assert PlanFrom(size, content, pos, index) == [p] + (d' + [fin]);
    ConsSnoc(p, d', fin);
  }

  lemma ConsSnoc(p: Packet, d: seq<Packet>, fin: Packet)
    ensures [p] + (d + [fin]) == ([p] + d) + [fin]
  {
  }

  /** From stream position pos with `index` DATA packets sent, the loop
      form writes the rest of the plan up to the first failed write and
      returns whether all of those writes succeeded. */
  predicate SendFromAgrees(size: int, content: seq<byte>, pending: seq<bool>, pos: nat, index: nat, written: seq<Packet>)
    requires index <= pos && index <= size < 0x1_0000_0000
  {
    var t := Transmit(PlanFrom(size, content, pos, index), pending);
    SendFrom(size, content, pending, pos, index, written) == (written + t.0, t.1)
  }

  /** The loop form agrees with the plan from any point of the DATA loop. */
  lemma {:induction false} SendFromTransmits(size: int, content: seq<byte>, pending: seq<bool>, pos: nat, index: nat, written: seq<Packet>)
    requires index <= pos && index <= size < 0x1_0000_0000
    ensures SendFromAgrees(size, content, pending, pos, index, written)
    decreases |content| - pos
  {
    var c := if pos < size then ReadChunk(content, pos) else [];
    if |c| == 0 {
      LoopEnds(size, content, pending, pos, index, written);
    } else if !Succeeds(pending, 0) {
      WriteFails(size, content, pending, pos, index, written);
    } else {
      var p := DataPacket(index, c);
      SendFromTransmits(size, content, pending[1..], pos + |c|, index + 1, written + [p]);
      WriteSucceeds(size, content, pending, pos, index, written);
    }
  }

  /** When the read finds nothing or the size is reached, only the FIN is
      left to write. */
  lemma LoopEnds(size: int, content: seq<byte>, pending: seq<bool>, pos: nat, index: nat, written: seq<Packet>)
    requires index <= pos && index <= size < 0x1_0000_0000
    requires |if pos < size then ReadChunk(content, pos) else []| == 0
    ensures SendFromAgrees(size, content, pending, pos, index, written)
  {
    var fin := FinPacket(index);
    assert PlanFrom(size, content, pos, index) == [fin];
    if Succeeds(pending, 0) {
      assert [fin][1..] == [];
      assert Transmit([], pending[1..]) == ([], true);
      assert [fin] + [] == [fin];
    }
    assert Transmit([fin], pending) == ([fin], Succeeds(pending, 0));
  }

  /** A failed DATA write ends the transfer right after that packet. */
  lemma WriteFails(size: int, content: seq<byte>, pending: seq<bool>, pos: nat, index: nat, written: seq<Packet>)
    requires index <= pos && index <= size < 0x1_0000_0000
    requires pos < size && |ReadChunk(content, pos)| > 0 && !Succeeds(pending, 0)
    ensures SendFromAgrees(size, content, pending, pos, index, written)
  {
    var p := DataPacket(index, ReadChunk(content, pos));
    var rest := PlanFrom(size, content, pos, index);
    assert rest[0] == p;
    assert Transmit(rest, pending) == ([p], false);
  }

  /** A successful DATA write moves the loop on by one block. */
  lemma WriteSucceeds(size: int, content: seq<byte>, pending: seq<bool>, pos: nat, index: nat, written: seq<Packet>)
    requires index <= pos && index <= size < 0x1_0000_0000
    requires pos < size && |ReadChunk(content, pos)| > 0 && Succeeds(pending, 0)
    requires var c := ReadChunk(content, pos);
      SendFromAgrees(size, content, pending[1..], pos + |c|, index + 1, written + [DataPacket(index, c)])
    ensures SendFromAgrees(size, content, pending, pos, index, written)
  {
    var c := ReadChunk(content, pos);
    var p := DataPacket(index, c);
    var rest' := PlanFrom(size, content, pos + |c|, index + 1);
    assert PlanFrom(size, content, pos, index) == [p] + rest';
    var t' := Transmit(rest', pending[1..]);
    assert ([p] + rest')[1..] == rest';
    assert Transmit([p] + rest', pending) == ([p] + t'.0, t'.1);
    assert (written + [p]) + t'.0 == written + ([p] + t'.0);
  }

  /** enviar_archivo over an abstract file and an oracle of write outcomes.
      Returns the packets handed to radio.write, in order, and the result. */
  method SendFile(source: SourceFile, outcomes: seq<bool>) returns (written: seq<Packet>, ok: bool)
    requires SizeFits(source)
    ensures (written, ok) == SendOutcome(source, outcomes)
  {
    if source.Unopenable? {
      return [], false;
    }
    var tam := source.size;
    if tam <= 0 {
      return [], false;
    }
    var content := source.content;

    var p := HeaderPacket(tam);
    ok := Succeeds(outcomes, 0);
    written := [p];
    if !ok {
      return;
    }
    var pending := outcomes[1..];
    ghost var result := SendFrom(tam, content, pending, 0, 0, written);
    HeaderThenRest(tam, content, outcomes);
    PlanFromIsDataThenFin(tam, content, 0, 0);
    SendFromTransmits(tam, content, pending, 0, 0, written);

    var index := 0;
    var total := 0;
    while total < tam
      invariant index <= total && index <= tam
      invariant SendFrom(tam, content, pending, total, index, written) == result
      decreases tam - total
    {
      var chunk := ReadChunk(content, total);
      if |chunk| == 0 {
        break;
      }
      p := DataPacket(index, chunk);
      ok := Succeeds(pending, 0);
      written := written + [p];
      if !ok {
        return;
      }
      pending := pending[1..];
      total := total + |chunk|;
      index := index + 1;
    }

    p := FinPacket(index);
    ok := Succeeds(pending, 0);
    written := written + [p];
  }

  /** After a successful HEADER write, the transfer goes on with the rest of
      the plan on the remaining outcomes. */
  lemma HeaderThenRest(tam: int, content: seq<byte>, outcomes: seq<bool>)
    requires 0 < tam < 0x1_0000_0000
    requires Succeeds(outcomes, 0)
    ensures var data := DataPackets(tam, content, 0, 0);
      var rest := Transmit(data + [FinPacket(|data|)], outcomes[1..]);
      Transmit(Plan(tam, content), outcomes) == ([HeaderPacket(tam)] + rest.0, rest.1)
  {
    var data := DataPackets(tam, content, 0, 0);
    assert Plan(tam, content) == [HeaderPacket(tam)] + (data + [FinPacket(|data|)]);
    TransmitAppend([HeaderPacket(tam)], data + [FinPacket(|data|)], outcomes);
  }

  /** An unopenable or empty file is refused before anything is sent. */
  lemma NothingSentForEmptyFile(source: SourceFile, outcomes: seq<bool>)
    requires SizeFits(source)
    requires source.Unopenable? || source.size <= 0
    ensures SendOutcome(source, outcomes) == ([], false)
  {
  }

  /** A non-empty file always starts with a HEADER carrying its size; if
      that write fails, nothing else is attempted. */
  lemma HeaderFirst(size: int, content: seq<byte>, outcomes: seq<bool>)
    requires 0 < size < 0x1_0000_0000
    ensures var r := SendOutcome(Readable(size, content), outcomes);
      |r.0| > 0 && r.0[0] == HeaderPacket(size) &&
      (!Succeeds(outcomes, 0) ==> r == ([HeaderPacket(size)], false))
  {
  }

  lemma BlocksForExact(m: nat, j: nat)
    requires m <= 27 * j < m + 27
    ensures BlocksFor(m) == j
  {
  }

  /** The DATA packets from block j on are one per remaining 27-byte block of
      the first min(size, readable bytes) bytes, each holding that block. */
  predicate LayoutFrom(size: int, content: seq<byte>, j: nat)
    requires 0 < size < 0x1_0000_0000
  {
    var d := DataPackets(size, content, 27 * j, j);
    |d| + j == BlocksFor(Min(size, |content|)) &&
    forall i :: 0 <= i < |d| ==>
      27 * (j + i) < Min(size, |content|) &&
      d[i] == DataPacket(j + i, ReadChunk(content, 27 * (j + i)))
  }

  /** The DATA phase reads the file in consecutive 27-byte blocks from offset
      27 * j on: one packet per block that starts before both the declared
      size and the end of the readable content, none empty, numbered on. */
  lemma {:induction false} DataPacketsLayout(size: int, content: seq<byte>, j: nat)
    requires 0 < size < 0x1_0000_0000
    requires 27 * j < Min(size, |content|) + 27
    ensures LayoutFrom(size, content, j)
    decreases size - 27 * j
  {
    var m := Min(size, |content|);
    var pos := 27 * j;
    if pos >= m {
      assert DataPackets(size, content, pos, j) == [];
      BlocksForExact(m, j);
    } else if pos + 27 <= |content| {
      DataPacketsLayout(size, content, j + 1);
      FullBlockStep(size, content, j);
    } else {
      LastBlock(size, content, j);
    }
  }

  /** Unfolding one full 27-byte block: the layout from block j + 1 on
      extends to block j. */
  lemma FullBlockStep(size: int, content: seq<byte>, j: nat)
    requires 0 < size < 0x1_0000_0000
    requires 27 * j < Min(size, |content|) && 27 * j + 27 <= |content|
    requires LayoutFrom(size, content, j + 1)
    ensures LayoutFrom(size, content, j)
  {
    var pos := 27 * j;
    var c := ReadChunk(content, pos);
    assert |c| == 27;
    var rest := DataPackets(size, content, 27 * (j + 1), j + 1);
    var d := DataPackets(size, content, pos, j);
    assert d == [DataPacket(j, c)] + rest;
    forall i | 0 <= i < |d|
      ensures 27 * (j + i) < Min(size, |content|) && d[i] == DataPacket(j + i, ReadChunk(content, 27 * (j + i)))
    {
      if i > 0 {
        assert d[i] == rest[i - 1];
        assert j + i == j + 1 + (i - 1);
      }
    }
  }

  /** A block that reaches the end of the readable content is the last one. */
  lemma LastBlock(size: int, content: seq<byte>, j: nat)
    requires 0 < size < 0x1_0000_0000
    requires 27 * j < Min(size, |content|) && |content| < 27 * j + 27
    ensures LayoutFrom(size, content, j)
  {
    var pos := 27 * j;
    var c := ReadChunk(content, pos);
    assert pos + |c| == |content|;
    assert ReadChunk(content, pos + |c|) == [];
    DataPacketsUnfold(size, content, pos, j);
    var d := DataPackets(size, content, pos, j);
    assert d == [DataPacket(j, c)] + [];
    BlocksForExact(Min(size, |content|), j + 1);
    forall i | 0 <= i < |d|
      ensures 27 * (j + i) < Min(size, |content|) && d[i] == DataPacket(j + i, ReadChunk(content, 27 * (j + i)))
    {
      assert i == 0 && 27 * (j + i) == pos;
    }
  }

  /** When every write succeeds, the sender transmits its whole plan:
      HEADER(size), BlocksFor(min(size, readable bytes)) DATA packets
      holding the consecutive blocks of the file, and FIN carrying that
      count. A short read inside the DATA phase therefore still ends in a
      FIN, carrying the number of DATA packets sent so far. */
  lemma SuccessfulSend(size: int, content: seq<byte>, outcomes: seq<bool>)
    requires 0 < size < 0x1_0000_0000
    requires forall i :: 0 <= i < |Plan(size, content)| ==> Succeeds(outcomes, i)
    ensures var r := SendOutcome(Readable(size, content), outcomes);
      var k := BlocksFor(Min(size, |content|));
      r.1 && |r.0| == k + 2 &&
      r.0[0] == HeaderPacket(size) &&
      r.0[k + 1] == FinPacket(k) &&
      forall i :: 1 <= i <= k ==> r.0[i] == DataPacket(i - 1, ReadChunk(content, 27 * (i - 1)))
  {
    DataPacketsLayout(size, content, 0);
    var d := DataPackets(size, content, 0, 0);
    var k := BlocksFor(Min(size, |content|));
    var r := SendOutcome(Readable(size, content), outcomes);
    TransmitStops(Plan(size, content), outcomes);
    assert r.0 == Plan(size, content);
    forall i | 1 <= i <= k
      ensures r.0[i] == DataPacket(i - 1, ReadChunk(content, 27 * (i - 1)))
    {
      assert r.0[i] == d[i - 1];
    }
  }

  /** A failing write ends the transfer: the result is false and the failed
      packet is the last one handed over; before it every write succeeded. */
  lemma AbortOnFailedWrite(source: SourceFile, outcomes: seq<bool>)
    requires SizeFits(source) && source.Readable? && source.size > 0
    requires exists i :: 0 <= i < |Plan(source.size, source.content)| && !Succeeds(outcomes, i)
    ensures var r := SendOutcome(source, outcomes);
      !r.1 && |r.0| > 0 && !Succeeds(outcomes, |r.0| - 1) &&
      r.0 == Plan(source.size, source.content)[..|r.0|] &&
      forall i :: 0 <= i < |r.0| - 1 ==> Succeeds(outcomes, i)
  {
    TransmitStops(Plan(source.size, source.content), outcomes);
  }
}
