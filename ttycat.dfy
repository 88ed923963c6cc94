/** Model of ttycat.c: the relay loop between stdin/stdout and a terminal
    device. The loop keeps a BSIZE-byte output buffer obuf holding the last
    chunk read from stdin; obuf[offset..obuf_size) is what the device has
    not accepted yet. select, read and write are replaced by an Oracle: the
    readiness select reported and the results the calls returned. */
module TtyCat {

  const BSIZE: int := 512

  /** What read(2) returned: the bytes read (none at end of file) or -1. */
  datatype ReadResult = Bytes(data: seq<bv8>) | Failed

  /** One pass of the loop as the operating system answered it: which
      descriptors select found ready, what the two reads returned and how
      many bytes the write to the device accepted (-1 for an error). */
  datatype Oracle = Oracle(
    deviceReadable: bool, stdinReadable: bool, deviceWritable: bool,
    fromDevice: ReadResult, fromStdin: ReadResult, accepted: int)

  /** Whether the loop goes on, or the process exits with a status. */
  datatype Outcome = Running | Exit(code: int)

  /** The loop's state, obuf, obuf_size and offset, together with the history
      it has produced: every byte read from stdin (input), every byte the
      device accepted (sent) and every byte copied to stdout (echoed). */
  datatype Relay = Relay(
    obuf: seq<bv8>, size: int, offset: int,
    input: seq<bv8>, sent: seq<bv8>, echoed: seq<bv8>)

  /** The state after one pass, and whether the loop goes on. */
  datatype Stepped = Stepped(relay: Relay, outcome: Outcome)

  // ---------------------------------------------------------------------------
  // The buffer invariant and the readiness questions
  // ---------------------------------------------------------------------------

  /** stdin is polled only when the buffer is fully delivered. */
  predicate AsksStdin(r: Relay) {
    r.size == r.offset
  }

  /** The device is polled for writing only while bytes are pending. */
  predicate AsksWritable(r: Relay) {
    r.size > r.offset
  }

  /** The bounds 0 <= offset <= obuf_size <= BSIZE; the bytes delivered
      followed by the pending slice are exactly the bytes read from stdin
      (nothing lost, nothing duplicated, order kept); and obuf[..offset] is
      what the device accepted last. */
  predicate Inv(r: Relay) {
    |r.obuf| == BSIZE && 0 <= r.offset <= r.size <= BSIZE &&
    r.input == r.sent + r.obuf[r.offset..r.size] &&
    r.offset <= |r.sent| && r.obuf[..r.offset] == r.sent[|r.sent| - r.offset..]
  }

  /** The bytes read from stdin that the device has not accepted yet. */
  function Pending(r: Relay): seq<bv8>
    requires Inv(r)
  {
    r.obuf[r.offset..r.size]
  }

  /** read(2) of BSIZE bytes returns at most BSIZE of them. */
  predicate Fits(res: ReadResult) {
    res.Bytes? ==> |res.data| <= BSIZE
  }

  /** What the system calls can return: reads of at most BSIZE bytes and a
      write that accepts at most the obuf_size - offset bytes it was given,
      or fails with -1. */
  predicate OracleOk(r: Relay, o: Oracle) {
    Fits(o.fromDevice) && Fits(o.fromStdin) &&
    (AsksWritable(r) ==> -1 <= o.accepted <= r.size - r.offset)
  }

  /** The state before the first pass: an empty buffer and no history; the
      buffer's contents are whatever the array held. */
  function Initial(junk: seq<bv8>): (r: Relay)
    requires |junk| == BSIZE
    ensures Inv(r) && AsksStdin(r) && !AsksWritable(r)
  {
    Relay(junk, 0, 0, [], [], [])
  }

  // ---------------------------------------------------------------------------
  // One pass of the loop
  // ---------------------------------------------------------------------------

  /** The device is readable: end of file or an error (the slave end hung
      up) exits 0 at once, pending bytes or not; otherwise the bytes read are
      written to stdout, that write's result being ignored. */
  function ReadDevice(r: Relay, res: ReadResult): (s: Stepped)
    ensures s.outcome == if res.Bytes? && |res.data| > 0 then Running else Exit(0)
    ensures s.outcome.Exit? ==> s.relay == r
    ensures s.outcome.Running? ==> s.relay == r.(echoed := r.echoed + res.data)
  {
    match res
    case Failed => Stepped(r, Exit(0))
    case Bytes(d) =>
      if |d| == 0 then Stepped(r, Exit(0)) else Stepped(r.(echoed := r.echoed + d), Running)
  }

  /** stdin is readable: offset is reset and the chunk read becomes the new
      buffer; end of stdin exits 0. A failed read exits 0 too (the source
      stores -1 in obuf_size instead; see ReadStdinAsWritten). */
  function ReadStdin(r: Relay, res: ReadResult): (s: Stepped)
    requires |r.obuf| == BSIZE && Fits(res)
    ensures Inv(r) && AsksStdin(r) ==> Inv(s.relay)
    ensures |s.relay.obuf| == BSIZE && s.relay.offset == 0 && s.relay.sent == r.sent && s.relay.echoed == r.echoed
    ensures s.outcome == if res.Bytes? && |res.data| > 0 then Running else Exit(0)
    ensures res.Bytes? ==>
      s.relay.size == |res.data| && s.relay.obuf[..|res.data|] == res.data &&
      s.relay.input == r.input + res.data
  {
    match res
    case Failed => Stepped(r.(offset := 0, size := 0), Exit(0))
    case Bytes(d) =>
      var obuf := d + r.obuf[|d|..];
      assert obuf[..|d|] == d;
      var n := r.(obuf := obuf, offset := 0, size := |d|, input := r.input + d);
      if |d| == 0 then Stepped(n, Exit(0)) else Stepped(n, Running)
  }

  /** The device is writable: it accepts the first x pending bytes and offset
      moves past them. A failed write delivers nothing and leaves offset as
      it was (the source adds the -1 to offset; see WriteAsWritten). */
  function WriteDevice(r: Relay, x: int): (n: Relay)
    requires Inv(r) && -1 <= x <= r.size - r.offset
    ensures Inv(n)
    ensures x < 0 ==> n == r
    ensures x >= 0 ==> n == r.(offset := r.offset + x, sent := r.sent + r.obuf[r.offset..r.offset + x])
  {
    if x < 0 then r
    else
      var n := r.(offset := r.offset + x, sent := r.sent + r.obuf[r.offset..r.offset + x]);
      WriteKeepsInv(r, x);
      n
  }

  lemma WriteKeepsInv(r: Relay, x: int)
    requires Inv(r) && 0 <= x <= r.size - r.offset
    ensures Inv(r.(offset := r.offset + x, sent := r.sent + r.obuf[r.offset..r.offset + x]))
  {
    var o, e := r.offset, r.offset + x;
    var sent := r.sent + r.obuf[o..e];
    assert r.obuf[o..r.size] == r.obuf[o..e] + r.obuf[e..r.size];
    assert r.obuf[..e] == r.obuf[..o] + r.obuf[o..e];
    assert sent[|sent| - e..] == r.sent[|r.sent| - o..] + r.obuf[o..e];
  }

  /** One pass of the for (;;) body: the readiness questions are decided
      from the state at the top of the pass; then the device read, the stdin
      read and the device write happen in that order, each only when it was
      asked and select reported it ready. */
  function Iterate(r: Relay, o: Oracle): (s: Stepped)
    requires Inv(r) && OracleOk(r, o)
    ensures Inv(s.relay)
  {
    var a := if o.deviceReadable then ReadDevice(r, o.fromDevice) else Stepped(r, Running);
    if a.outcome.Exit? then a
    else
      var b := if AsksStdin(r) && o.stdinReadable then ReadStdin(a.relay, o.fromStdin) else a;
      if b.outcome.Exit? then b
      else if AsksWritable(r) && o.deviceWritable then Stepped(WriteDevice(b.relay, o.accepted), Running)
      else b
  }

  // ---------------------------------------------------------------------------
  // Properties of one pass
  // ---------------------------------------------------------------------------

  /** The stdin and the device-write questions exclude each other, so no pass
      both reads new stdin data and delivers bytes to the device. */
  lemma OneDirectionPerIteration(r: Relay, o: Oracle)
    requires Inv(r) && OracleOk(r, o)
    ensures !(AsksStdin(r) && AsksWritable(r))
    ensures var n := Iterate(r, o).relay; n.input == r.input || n.sent == r.sent
  {
  }

  /** The history only grows: stdin bytes, delivered bytes and echoed bytes
      of a pass extend those before it. */
  lemma IterateExtends(r: Relay, o: Oracle)
    requires Inv(r) && OracleOk(r, o)
    ensures var n := Iterate(r, o).relay;
      r.input <= n.input && r.sent <= n.sent && r.echoed <= n.echoed
  {
  }

  /** A new chunk is read from stdin only once the previous one has been
      delivered in full. */
  lemma ChunkDeliveredBeforeNextRead(r: Relay, o: Oracle)
    requires Inv(r) && OracleOk(r, o)
    requires Iterate(r, o).relay.input != r.input
    ensures r.sent == r.input && Pending(r) == []
  {
  }

  /** A stdin read sets offset to 0 and obuf_size to the count read, the
      chunk occupying the front of obuf; a count of 0 exits 0. */
  lemma StdinReadResets(r: Relay, o: Oracle, d: seq<bv8>)
    requires Inv(r) && OracleOk(r, o) && AsksStdin(r) && o.stdinReadable
    requires !o.deviceReadable || (o.fromDevice.Bytes? && |o.fromDevice.data| > 0)
    requires o.fromStdin == Bytes(d)
    ensures var s := Iterate(r, o);
      s.relay.offset == 0 && s.relay.size == |d| && s.relay.obuf[..|d|] == d &&
      s.relay.input == r.input + d && s.relay.sent == r.sent &&
      s.outcome == if |d| == 0 then Exit(0) else Running
  {
  }

  /** A device read of 0 bytes or -1 exits 0 at once, whatever is still
      pending in obuf and whatever else select reported. */
  lemma DeviceHangupExits(r: Relay, o: Oracle)
    requires Inv(r) && OracleOk(r, o) && o.deviceReadable
    requires o.fromDevice == Failed || o.fromDevice == Bytes([])
    ensures Iterate(r, o) == Stepped(r, Exit(0))
  {
  }

  /** What the device sends is copied to stdout exactly, in one write per
      read; nothing else is. */
  lemma EchoesDeviceBytes(r: Relay, o: Oracle)
    requires Inv(r) && OracleOk(r, o)
    ensures var s := Iterate(r, o);
      s.relay.echoed == if o.deviceReadable && o.fromDevice.Bytes? then r.echoed + o.fromDevice.data else r.echoed
  {
  }

  /** A device write delivers the first `accepted` pending bytes and moves
      offset past them; the rest stays pending. */
  lemma WriteDeliversPendingPrefix(r: Relay, o: Oracle)
    requires Inv(r) && OracleOk(r, o) && AsksWritable(r) && o.deviceWritable
    requires !o.deviceReadable || (o.fromDevice.Bytes? && |o.fromDevice.data| > 0)
    requires o.accepted >= 0
    ensures var n := Iterate(r, o).relay;
      n.offset == r.offset + o.accepted && n.size == r.size && n.input == r.input &&
      n.sent == r.sent + Pending(r)[..o.accepted] && Pending(n) == Pending(r)[o.accepted..]
  {
  }

  // ---------------------------------------------------------------------------
  // Runs of the loop
  // ---------------------------------------------------------------------------

  /** The loop driven by a script of oracle answers, up to the first exit. */
  function RunSpec(r: Relay, script: seq<Oracle>): Stepped
    requires Inv(r) && ScriptOk(r, script)
    decreases |script|
  {
    if script == [] then Stepped(r, Running)
    else
      var s := Iterate(r, script[0]);
      if s.outcome.Exit? then s else RunSpec(s.relay, script[1..])
  }

  /** Every answer of the script is one the system calls can give in the
      state the loop is in when it is used. */
  predicate ScriptOk(r: Relay, script: seq<Oracle>)
    requires Inv(r)
    decreases |script|
  {
    script == [] ||
    (OracleOk(r, script[0]) &&
     var s := Iterate(r, script[0]);
     s.outcome.Running? ==> ScriptOk(s.relay, script[1..]))
  }

  /** Over any run the invariant holds and the history only grows: the
      device has received a prefix of what stdin supplied, in order and
      without duplicates, and the rest is exactly the pending slice. */
  lemma {:induction false} RunKeepsInvariant(r: Relay, script: seq<Oracle>)
    requires Inv(r) && ScriptOk(r, script)
    ensures var n := RunSpec(r, script).relay;
      Inv(n) && r.input <= n.input && r.sent <= n.sent && r.echoed <= n.echoed &&
      n.sent + Pending(n) == n.input
    decreases |script|
  {
    if script != [] {
      var s := Iterate(r, script[0]);
      IterateExtends(r, script[0]);
      if s.outcome.Running? {
        RunKeepsInvariant(s.relay, script[1..]);
      }
    }
  }

  function Min(a: int, b: int): int {
    if a <= b then a else b
  }

  /** A pass in which only the device is ready, for writing, and accepts up
      to k bytes of what it is offered. */
  function SlowWrite(r: Relay, k: int): Oracle {
    Oracle(false, false, true, Bytes([]), Bytes([]), Min(k, r.size - r.offset))
  }

  /** Passes driven by SlowWrite, the device accepting up to xs[j] bytes in
      pass j. The scenario for the backpressure property below; stdin is
      reported not ready, so it is never read here. */
  function DrainBy(r: Relay, xs: seq<int>): (d: Relay)
    requires Inv(r) && forall j :: 0 <= j < |xs| ==> xs[j] >= 1
    ensures Inv(d)
    decreases |xs|
  {
    if xs == [] then r else DrainBy(Iterate(r, SlowWrite(r, xs[0])).relay, xs[1..])
  }

  /** Backpressure never loses data: a device that accepts at least one
      byte per pass, however many more it takes in each, receives every
      pending byte within obuf_size - offset passes, after which the buffer
      is drained. */
  lemma {:induction false} SlowDeviceDrains(r: Relay, xs: seq<int>)
    requires Inv(r) && (forall j :: 0 <= j < |xs| ==> xs[j] >= 1) && |xs| >= r.size - r.offset
    ensures DrainBy(r, xs).sent == r.input && DrainBy(r, xs).input == r.input
    ensures AsksStdin(DrainBy(r, xs))
    decreases |xs|
  {
    if xs != [] {
      var s := Iterate(r, SlowWrite(r, xs[0])).relay;
      if AsksWritable(r) {
        assert s.size - s.offset < r.size - r.offset;
      } else {
        assert s == r;
      }
      SlowDeviceDrains(s, xs[1..]);
    }
  }

  // ---------------------------------------------------------------------------
  // Start-up
  // ---------------------------------------------------------------------------

  /** main before the loop: anything but exactly one argument prints the
      usage line and exits 1; a device that cannot be opened exits 1;
      otherwise the relay starts. */
  function Startup(argc: int, openOk: bool): (out: Outcome)
    ensures out.Running? <==> argc == 2 && openOk
    ensures out.Exit? ==> out.code == 1
  {
    if argc != 2 then Exit(1)
    else if !openOk then Exit(1)
    else Running
  }

  // ---------------------------------------------------------------------------
  // The loop as an object updating its buffers in place
  // ---------------------------------------------------------------------------

  class RelayLoop {
    const obuf: array<bv8>
    const ibuf: array<bv8>
    var size: int
    var offset: int
    ghost var input: seq<bv8>
    ghost var sent: seq<bv8>
    ghost var echoed: seq<bv8>

    ghost function Model(): Relay
      reads this, obuf
    {
      Relay(obuf[..], size, offset, input, sent, echoed)
    }

    ghost predicate Valid()
      reads this, obuf, ibuf
    {
      obuf != ibuf && obuf.Length == BSIZE && ibuf.Length == BSIZE && Inv(Model())
    }

    /** obuf_size = 0, offset = 0 and the two arrays. */
    constructor ()
      ensures Valid() && fresh(obuf) && fresh(ibuf)
      ensures Model() == Initial(obuf[..])
    {
      obuf := new bv8[BSIZE];
      ibuf := new bv8[BSIZE];
      size, offset := 0, 0;
      input, sent, echoed := [], [], [];
    }

    /** Lines 39-44 after a read of d from the device: d lands in ibuf and
        ibuf[..|d|] goes to stdout. */
    method Echo(d: seq<bv8>)
      requires Valid() && |d| <= BSIZE
      modifies this`echoed, ibuf
      ensures Valid() && Model() == old(Model()).(echoed := old(Model()).echoed + d)
      ensures ibuf[..|d|] == d
    {
      forall k | 0 <= k < |d| {
        ibuf[k] := d[k];
      }
      echoed := echoed + ibuf[..|d|];
    }

    /** Lines 48-51: offset = 0 and the chunk read lands in obuf. */
    method Refill(res: ReadResult) returns (outcome: Outcome)
      requires Valid() && AsksStdin(Model()) && Fits(res)
      modifies this, obuf
      ensures Valid()
      ensures Stepped(Model(), outcome) == ReadStdin(old(Model()), res)
    {
      offset := 0;
      match res
      case Failed =>
        size := 0;
        return Exit(0);
      case Bytes(d) =>
        forall k | 0 <= k < |d| {
          obuf[k] := d[k];
        }
        assert obuf[..] == d + old(obuf[..])[|d|..];
        size := |d|;
        input := input + d;
        return if size == 0 then Exit(0) else Running;
    }

    /** Lines 55-56: the device took x of the pending bytes. */
    method Deliver(x: int)
      requires Valid() && -1 <= x <= size - offset
      modifies this`offset, this`sent
      ensures Valid() && Model() == WriteDevice(old(Model()), x)
    {
      if x >= 0 {
        ghost var r := Model();
        WriteKeepsInv(r, x);
        sent := sent + obuf[offset..offset + x];
        offset := offset + x;
        assert Model() == r.(offset := r.offset + x, sent := r.sent + r.obuf[r.offset..r.offset + x]);
      }
    }

    /** One pass of the for (;;) body, with the system calls' answers in o. */
    method Step(o: Oracle) returns (outcome: Outcome)
      requires Valid() && OracleOk(Model(), o)
      modifies this, obuf, ibuf
      ensures Valid()
      ensures Stepped(Model(), outcome) == Iterate(old(Model()), o)
    {
      var readStdin := size == offset;
      var writeDevice := size > offset;
      if o.deviceReadable {
        match o.fromDevice
        case Failed =>
          return Exit(0);
        case Bytes(d) =>
          if |d| == 0 {
            return Exit(0);
          }
          Echo(d);
      }
      if readStdin && o.stdinReadable {
        outcome := Refill(o.fromStdin);
        if outcome.Exit? {
          return;
        }
      }
      if writeDevice && o.deviceWritable {
        Deliver(o.accepted);
      }
      return Running;
    }

    /** The loop run over a script of answers until it exits or the script
      ends. */
    method Run(script: seq<Oracle>) returns (outcome: Outcome)
      requires Valid() && ScriptOk(Model(), script)
      modifies this, obuf, ibuf
      ensures Valid()
      ensures Stepped(Model(), outcome) == RunSpec(old(Model()), script)
    {
      var i := 0;
      while i < |script|
        invariant 0 <= i <= |script| && Valid()
        invariant ScriptOk(Model(), script[i..])
        invariant RunSpec(old(Model()), script) == RunSpec(Model(), script[i..])
      {
        assert script[i..][1..] == script[i + 1..];
        outcome := Step(script[i]);
        if outcome.Exit? {
          return;
        }
        i := i + 1;
      }
      return Running;
    }
  }

  // ---------------------------------------------------------------------------
  // The error returns as the source handles them
  // ---------------------------------------------------------------------------

  /** The loop's state may leave the invariant's bounds here, so only the
      array size and what indexing needs are assumed. */
  predicate Shape(r: Relay) {
    |r.obuf| == BSIZE && 0 <= r.offset && r.size <= BSIZE
  }

  /** Lines 48-51 as written: offset = 0, then obuf_size = read(...); only a
      count of 0 exits, so a failed read leaves obuf_size at -1. */
  function ReadStdinAsWritten(r: Relay, res: ReadResult): (s: Stepped)
    requires |r.obuf| == BSIZE && Fits(res)
    ensures res.Failed? ==> s.outcome == Running && s.relay.size == -1 && s.relay.offset == 0
    ensures res.Bytes? ==> s == ReadStdin(r, res)
  {
    match res
    case Failed => Stepped(r.(offset := 0, size := -1), Running)
    case Bytes(_) => ReadStdin(r, res)
  }

  /** Lines 55-56 as written: offset += x, whatever write returned. */
  function WriteAsWritten(r: Relay, x: int): (n: Relay)
    requires 0 <= r.offset && -1 <= x && r.offset + x <= r.size <= |r.obuf|
    ensures n.offset == r.offset + x && n.size == r.size && n.input == r.input && n.obuf == r.obuf
    ensures x < 0 ==> n.sent == r.sent
  {
    r.(offset := r.offset + x, sent := r.sent + if x >= 0 then r.obuf[r.offset..r.offset + x] else [])
  }

  /** One pass of the loop body exactly as written. */
  function IterateAsWritten(r: Relay, o: Oracle): (s: Stepped)
    requires Shape(r) && OracleOk(r, o)
    ensures s.outcome.Exit? ==> s.outcome.code == 0
    ensures |s.relay.obuf| == BSIZE && s.relay.size <= BSIZE
    ensures s.relay.offset < 0 ==> AsksWritable(r) && o.accepted < 0
  {
    var a := if o.deviceReadable then ReadDevice(r, o.fromDevice) else Stepped(r, Running);
    if a.outcome.Exit? then a
    else
      var b := if AsksStdin(r) && o.stdinReadable then ReadStdinAsWritten(a.relay, o.fromStdin) else a;
      if b.outcome.Exit? then b
      else if AsksWritable(r) && o.deviceWritable then Stepped(WriteAsWritten(b.relay, o.accepted), Running)
      else b
  }

  /** Where no system call fails, the source and the corrected pass agree. */
  lemma AgreesWithoutErrors(r: Relay, o: Oracle)
    requires Inv(r) && OracleOk(r, o) && o.fromStdin != Failed && o.accepted >= 0
    ensures IterateAsWritten(r, o) == Iterate(r, o)
  {
  }

  /** As written, a failed stdin read leaves obuf_size = -1 < offset = 0:
      the invariant is broken, and from then on neither stdin nor the device
      write is ever polled again, while the loop keeps running. */
  lemma StdinErrorAsWritten(r: Relay, o: Oracle)
    requires Inv(r) && OracleOk(r, o) && AsksStdin(r) && o.stdinReadable && o.fromStdin == Failed
    requires !o.deviceReadable || (o.fromDevice.Bytes? && |o.fromDevice.data| > 0)
    ensures var s := IterateAsWritten(r, o);
      s.outcome == Running && s.relay.size == -1 && s.relay.offset == 0 &&
      !Inv(s.relay) && !AsksStdin(s.relay) && !AsksWritable(s.relay)
  {
  }

  /** Once obuf_size < offset (as after a failed stdin read), every later
      pass of the source leaves obuf_size and offset as they are: the stdin
      bytes are never read again. */
  lemma StdinNeverPolledAgain(r: Relay, o: Oracle)
    requires Shape(r) && OracleOk(r, o) && r.size < r.offset
    ensures var n := IterateAsWritten(r, o).relay;
      n.size == r.size && n.offset == r.offset && n.input == r.input && n.sent == r.sent
  {
  }

  /** Corrected: a failed stdin read ends the relay with status 0, like end
      of stdin, leaving the invariant intact. */
  lemma StdinErrorExits(r: Relay, o: Oracle)
    requires Inv(r) && OracleOk(r, o) && AsksStdin(r) && o.stdinReadable && o.fromStdin == Failed
    requires !o.deviceReadable || (o.fromDevice.Bytes? && |o.fromDevice.data| > 0)
    ensures var s := Iterate(r, o); s.outcome == Exit(0) && Inv(s.relay)
  {
  }

  /** As written, a failed device write moves offset back by one. Past the
      start of the buffer, the last byte delivered becomes pending again and
      would be sent twice; at the start, offset becomes -1 and the next write
      reads before obuf. */
  lemma WriteErrorAsWritten(r: Relay)
    requires Inv(r) && AsksWritable(r)
    ensures var n := WriteAsWritten(r, -1);
      n.offset == r.offset - 1 && n.sent == r.sent && !Inv(n)
    ensures r.offset > 0 ==>
      var n := WriteAsWritten(r, -1);
      n.obuf[n.offset..n.size] == [r.sent[|r.sent| - 1]] + Pending(r) &&
      |n.sent + n.obuf[n.offset..n.size]| == |r.input| + 1
  {
    var n := WriteAsWritten(r, -1);
    if r.offset > 0 {
      assert r.obuf[r.offset - 1] == r.obuf[..r.offset][r.offset - 1];
      assert n.obuf[n.offset..n.size] == [r.obuf[r.offset - 1]] + Pending(r);
    }
  }

  /** Corrected: a failed device write delivers nothing and keeps the state,
      so the pending bytes are offered again on the next pass. */
  lemma WriteErrorRetries(r: Relay, o: Oracle)
    requires Inv(r) && OracleOk(r, o) && AsksWritable(r) && o.deviceWritable && o.accepted == -1
    requires !o.deviceReadable
    ensures Iterate(r, o) == Stepped(r, Running)
  {
  }
}
