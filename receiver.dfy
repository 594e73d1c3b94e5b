/** The receiver engine (recibir_archivo): a state machine that waits for a
    HEADER, appends the payload of every DATA packet to the output file and
    returns on FIN. Packets outside a session are ignored. */
module Receiver {
  import opened PacketCodec

  /** The engine's state: whether a HEADER opened a session, the declared
      size, the block count derived from it, the blocks written so far and
      the bytes written to the output file. */
  datatype RxState = RxState(
    headerReceived: bool,
    expectedSize: u32,
    expectedBlocks: u32,
    receivedBlocks: u32,
    sink: seq<byte>)

  /** The state every call of recibir_archivo starts from. */
  const FRESH := RxState(false, 0, 0, 0, [])

  /** Continue: keep polling. Done(b): recibir_archivo returns b. */
  datatype StepResult = Continue | Done(success: bool)

  /** (size + 26) / 27, with the addition wrapping at 2^32 as in uint32. */
  function ExpectedBlocks(size: u32): (e: u32)
    ensures e <= BlocksFor(size)
  {
    ((size + DATA_BYTES - 1) % 0x1_0000_0000) / DATA_BYTES
  }

  /** A uint32 increment. */
  function Inc32(x: u32): (y: u32)
    ensures x < 0xFFFF_FFFF ==> y == x + 1
    ensures x == 0xFFFF_FFFF ==> y == 0
  {
    (x + 1) % 0x1_0000_0000
  }

  /** One packet through the engine; `sinkOpens` says whether opening the
      output file on a HEADER succeeds. */
  function Next(s: RxState, p: Packet, sinkOpens: bool): (r: (RxState, StepResult))
    ensures r.1 == Done(false) <==> p.kind == TIPO_HEADER && !sinkOpens
    ensures r.1 == Done(true) <==> p.kind == TIPO_FIN && s.headerReceived
    ensures r.0.sink == s.sink || r.0.sink == [] || r.0.sink == s.sink + p.data
    ensures p.kind != TIPO_HEADER && r.0 != s ==> p.kind == TIPO_DATA && r.0.sink == s.sink + p.data
  {
    if p.kind == TIPO_HEADER then
      var declared := s.(expectedSize := p.sequence, expectedBlocks := ExpectedBlocks(p.sequence));
      if !sinkOpens then (declared, Done(false))
      else (declared.(headerReceived := true, receivedBlocks := 0, sink := []), Continue)
    else if p.kind == TIPO_DATA && s.headerReceived then
      (s.(sink := s.sink + p.data, receivedBlocks := Inc32(s.receivedBlocks)), Continue)
    else if p.kind == TIPO_FIN && s.headerReceived then
      (s, Done(true))
    else
      (s, Continue)
  }

  /** Feeds packets to the engine until it returns or the packets run out.
      Yields the final state, the outcome and the number of packets read. */
  function Run(s: RxState, ps: seq<Packet>, sinkOpens: bool): (r: (RxState, StepResult, nat))
    ensures r.2 <= |ps|
    ensures r.1.Done? ==> r.2 > 0
    ensures r.1 == Continue ==> r.2 == |ps|
    decreases |ps|
  {
    if ps == [] then (s, Continue, 0)
    else
      var (t, res) := Next(s, ps[0], sinkOpens);
      if res.Done? then (t, res, 1)
      else
        var (u, res', n) := Run(t, ps[1..], sinkOpens);
        (u, res', n + 1)
  }

  /** The bytes a session writes for these packets: every payload in full. */
  function Payloads(ps: seq<Packet>): (b: seq<byte>)
    ensures |b| == DATA_BYTES * |ps|
  {
    if ps == [] then [] else ps[0].data + Payloads(ps[1..])
  }

  /** A run stops at the first result: the packets before the last one read
      all leave the engine waiting, and the last one read gives the result. */
  lemma {:induction false} RunStopsAtFirstDone(s: RxState, ps: seq<Packet>, sinkOpens: bool)
    ensures var r := Run(s, ps, sinkOpens);
      r.1.Done? ==>
        0 < r.2 <= |ps| &&
        var before := Run(s, ps[..r.2 - 1], sinkOpens);
        before.1 == Continue && Next(before.0, ps[r.2 - 1], sinkOpens) == (r.0, r.1)
    decreases |ps|
  {
    if ps != [] {
      var (t, res) := Next(s, ps[0], sinkOpens);
      if res.Done? {
        assert ps[..0] == [];
      } else {
        RunStopsAtFirstDone(t, ps[1..], sinkOpens);
        var r' := Run(t, ps[1..], sinkOpens);
        if r'.1.Done? {
          var k := r'.2;
          assert ps[..k][0] == ps[0] && ps[..k][1..] == ps[1..][..k - 1];
          assert ps[k] == ps[1..][k - 1];
        }
      }
    }
  }

  /** The engine as an object whose fields recibir_archivo's locals become. */
  class Receiver {
    var headerReceived: bool
    var expectedSize: u32
    var expectedBlocks: u32
    var receivedBlocks: u32
    var sink: seq<byte>

    function State(): RxState
      reads this
    {
      RxState(headerReceived, expectedSize, expectedBlocks, receivedBlocks, sink)
    }

    constructor ()
      ensures State() == FRESH
    {
      headerReceived := false;
      expectedSize := 0;
      expectedBlocks := 0;
      receivedBlocks := 0;
      sink := [];
    }

    /** The body of the polling loop for one received packet. */
    method Step(p: Packet, sinkOpens: bool) returns (r: StepResult)
      modifies this
      ensures (State(), r) == Next(old(State()), p, sinkOpens)
    {
      if p.kind == TIPO_HEADER {
        expectedSize := p.sequence;
        expectedBlocks := ExpectedBlocks(expectedSize);
        if !sinkOpens {
          return Done(false);
        }
        sink := [];
        headerReceived := true;
        receivedBlocks := 0;
        r := Continue;
      } else if p.kind == TIPO_DATA && headerReceived {
        sink := sink + p.data;
        receivedBlocks := Inc32(receivedBlocks);
        r := Continue;
      } else if p.kind == TIPO_FIN && headerReceived {
        r := Done(true);
      } else {
        r := Continue;
      }
    }
  }

  /** recibir_archivo over a finite sequence of received frames. Returns the
      outcome (Continue when the frames ran out without FIN or error), how
      many frames were read and the final state. */
  method ReceiveFile(frames: seq<Frame>, sinkOpens: bool) returns (r: StepResult, used: nat, last: RxState)
    ensures (last, r, used) == Run(FRESH, DecodeAll(frames), sinkOpens)
  {
    var rx := new Receiver();
    ghost var ps := DecodeAll(frames);
    var i := 0;
    while i < |frames|
      invariant 0 <= i <= |frames|
      invariant var t := Run(rx.State(), ps[i..], sinkOpens);
        Run(FRESH, ps, sinkOpens) == (t.0, t.1, t.2 + i)
    {
      var p := Decode(frames[i]);
      ghost var before := rx.State();
      RunFrom(before, ps, i, sinkOpens);
      r := rx.Step(p, sinkOpens);
      assert p == ps[i] && (rx.State(), r) == Next(before, ps[i], sinkOpens);
      i := i + 1;
      if r.Done? {
        used := i;
        last := rx.State();
        return;
      }
    }
    r := Continue;
    used := i;
    last := rx.State();
  }

  /** Run from packet i on takes one step and goes on from packet i + 1
      unless that step returned. */
  lemma RunFrom(s: RxState, ps: seq<Packet>, i: nat, sinkOpens: bool)
    requires i < |ps|
    ensures var (t, res) := Next(s, ps[i], sinkOpens);
      Run(s, ps[i..], sinkOpens) ==
        if res.Done? then (t, res, 1)
        else var u := Run(t, ps[i + 1..], sinkOpens); (u.0, u.1, u.2 + 1)
  {
    assert ps[i..][0] == ps[i] && ps[i..][1..] == ps[i + 1..];
  }

  /** (seq + 26) / 27 evaluated in uint32 is the number of 27-byte blocks of
      a seq-byte file as long as the addition cannot wrap. */
  lemma ExpectedBlocksIsBlockCount(size: u32)
    requires size <= 0xFFFF_FFFF - 26
    ensures ExpectedBlocks(size) == BlocksFor(size)
  {
  }

  /** The uint32 block count is the true one exactly for the sizes where the
      addition does not wrap; beyond them it is 0. */
  lemma ExpectedBlocksExact(size: u32)
    ensures ExpectedBlocks(size) == BlocksFor(size) <==> size <= 0xFFFF_FFFF - 26
    ensures size > 0xFFFF_FFFF - 26 ==> ExpectedBlocks(size) == 0
  {
    if size > 0xFFFF_FFFF - 26 {
      assert (size + 26) % 0x1_0000_0000 == size + 26 - 0x1_0000_0000;
    }
  }

  /** For the largest sizes the uint32 addition wraps and the count is 0. */
  lemma ExpectedBlocksWraps()
    ensures ExpectedBlocks(0xFFFF_FFFF) == 0
    ensures BlocksFor(0xFFFF_FFFF) == 159072863
  {
  }

  /** Outside a session only a HEADER has an effect: every other packet
      leaves the whole state unchanged and the engine keeps waiting. */
  lemma IgnoredOutsideSession(s: RxState, p: Packet, sinkOpens: bool)
    requires !s.headerReceived && p.kind != TIPO_HEADER
    ensures Next(s, p, sinkOpens) == (s, Continue)
  {
  }

  /** A HEADER, in any state, declares the new size and block count; if the
      output opens it starts a new session with an empty output file and no
      blocks, otherwise the engine fails with the session flags untouched. */
  lemma HeaderStartsSession(s: RxState, p: Packet, sinkOpens: bool)
    requires p.kind == TIPO_HEADER
    ensures var (t, r) := Next(s, p, sinkOpens);
      t.expectedSize == p.sequence && t.expectedBlocks == ExpectedBlocks(p.sequence) &&
      (sinkOpens ==> r == Continue && t.headerReceived && t.receivedBlocks == 0 && t.sink == []) &&
      (!sinkOpens ==>
        r == Done(false) && t.headerReceived == s.headerReceived &&
        t.receivedBlocks == s.receivedBlocks && t.sink == s.sink)
  {
  }

  /** In a session a DATA packet appends its whole 27-byte payload and counts
      one block, whatever its sequence number says; a FIN ends the call with
      success and changes nothing. */
  lemma InSession(s: RxState, p: Packet, sinkOpens: bool)
    requires s.headerReceived
    ensures p.kind == TIPO_DATA ==>
      Next(s, p, sinkOpens) == (s.(sink := s.sink + p.data, receivedBlocks := Inc32(s.receivedBlocks)), Continue)
    ensures p.kind == TIPO_FIN ==> Next(s, p, sinkOpens) == (s, Done(true))
  {
  }

  /** Any run of packets without a HEADER, fed to an engine outside a
      session, is consumed entirely and changes nothing. */
  lemma {:induction false} StrayPacketsIgnored(s: RxState, ps: seq<Packet>, sinkOpens: bool)
    requires !s.headerReceived
    requires forall i :: 0 <= i < |ps| ==> ps[i].kind != TIPO_HEADER
    ensures Run(s, ps, sinkOpens) == (s, Continue, |ps|)
  {
    if ps != [] {
      StrayPacketsIgnored(s, ps[1..], sinkOpens);
    }
  }

  /** One packet that leaves the engine waiting, in front of the rest. */
  lemma RunStep(s: RxState, p: Packet, more: seq<Packet>, sinkOpens: bool)
    requires Next(s, p, sinkOpens).1 == Continue
    ensures var u := Run(Next(s, p, sinkOpens).0, more, sinkOpens);
      Run(s, [p] + more, sinkOpens) == (u.0, u.1, u.2 + 1)
  {
    assert ([p] + more)[0] == p && ([p] + more)[1..] == more;
  }

  lemma PayloadsCons(p: Packet, ps: seq<Packet>)
    ensures Payloads([p] + ps) == p.data + Payloads(ps)
  {
    assert ([p] + ps)[1..] == ps;
  }

  /** A run of DATA packets inside a session appends all their payloads and
      counts them, and the engine goes on with what follows. */
  lemma {:induction false} DataRun(s: RxState, ds: seq<Packet>, rest: seq<Packet>, sinkOpens: bool)
    requires s.headerReceived
    requires s.receivedBlocks + |ds| < 0x1_0000_0000
    requires forall i :: 0 <= i < |ds| ==> ds[i].kind == TIPO_DATA
    ensures var t := s.(sink := s.sink + Payloads(ds), receivedBlocks := s.receivedBlocks + |ds|);
      var after := Run(t, rest, sinkOpens);
      Run(s, ds + rest, sinkOpens) == (after.0, after.1, after.2 + |ds|)
    decreases |ds|
  {
    if ds == [] {
      assert ds + rest == rest;
      assert s.sink + Payloads(ds) == s.sink;
      assert s.(sink := s.sink, receivedBlocks := s.receivedBlocks) == s;
    } else {
      var p, more := ds[0], ds[1..];
      var s1 := s.(sink := s.sink + p.data, receivedBlocks := s.receivedBlocks + 1);
      assert Next(s, p, sinkOpens) == (s1, Continue);
      assert ds == [p] + more;
      assert ds + rest == [p] + (more + rest);
      RunStep(s, p, more + rest, sinkOpens);
      DataRun(s1, more, rest, sinkOpens);
      PayloadsCons(p, more);
      assert s1.sink + Payloads(more) == s.sink + Payloads(ds);
      assert s1.(sink := s1.sink + Payloads(more), receivedBlocks := s1.receivedBlocks + |more|) ==
        s.(sink := s.sink + Payloads(ds), receivedBlocks := s.receivedBlocks + |ds|);
    }
  }
}
