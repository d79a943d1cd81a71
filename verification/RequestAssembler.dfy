/**
 * ModbusRtuReqAssembler (services/parser/modbus_rtu_req_assembler.cpp): requests are cut off a
 * per-port buffer by function code, checked by CRC, and resynchronised one byte at a time.
 */
module RequestAssembler {
  import opened Octets
  import opened StreamCut

  datatype Length = Known(len: nat) | NeedMore | UnknownFunction

  function ExpectedLen(buf: seq<Byte>): Length {
    if |buf| < 2 then NeedMore
    else if 0x01 <= buf[1] <= 0x06 then Known(8)
    else if buf[1] == 0x0F || buf[1] == 0x10 then
      if |buf| < 7 then NeedMore else Known(9 + buf[6] as nat)
    else UnknownFunction
  }

  /** One turn of the loop in tryGetFrame. */
  function Decide(buf: seq<Byte>): Decision {
    if |buf| < 4 then Wait
    else match ExpectedLen(buf)
      case NeedMore => Wait
      case UnknownFunction => Drop
      case Known(n) =>
        if |buf| < n then Wait
        else if CrcOk(buf[..n]) then Cut(n)
        else Drop
  }

  /** A request as the protocol defines it: 8 bytes for function codes 1 to 6, counted for 15
      and 16, closed by its CRC. */
  predicate WellFormed(f: seq<Byte>) {
    && |f| >= 8
    && CrcOk(f)
    && if f[1] == 0x0F || f[1] == 0x10 then |f| == 9 + f[6] as nat
       else 0x01 <= f[1] <= 0x06 && |f| == 8
  }

  lemma WholeIsWellFormed(f: seq<Byte>)
    ensures WholeFrame(Decide, f) <==> WellFormed(f)
  {
    assert f[..|f|] == f;
  }

  /** It is open what a buffer holds: under four bytes, or a request not there to its end. */
  predicate Undecided(buf: seq<Byte>) {
    || |buf| < 4
    || (1 <= buf[1] <= 6 && |buf| < 8)
    || (buf[1] in {0x0F, 0x10} && (|buf| < 7 || |buf| < 9 + buf[6] as nat))
  }

  lemma DecideImplements()
    ensures Implements(Decide, WellFormed, Undecided)
  {
    forall f
      ensures WholeFrame(Decide, f) <==> WellFormed(f)
    {
      WholeIsWellFormed(f);
    }
  }

  lemma DecideStable(buf: seq<Byte>, more: seq<Byte>)
    requires !Decide(buf).Wait?
    ensures Decide(buf + more) == Decide(buf)
  {
    if ExpectedLen(buf).Known? {
      var n := ExpectedLen(buf).len;
      assert n <= |buf| ==> (buf + more)[..n] == buf[..n];
    }
  }

  lemma DecideLocal(buf: seq<Byte>, n: nat)
    requires Decide(buf) == Cut(n) && n <= |buf|
    ensures WholeFrame(Decide, buf[..n])
  {
    assert buf[..n][..n] == buf[..n];
  }

  /** The request rule is final and local, so the stream theorems apply to it. */
  lemma DecideSound()
    ensures Sound(Decide) && Local(Decide)
  {
    forall buf, more | !Decide(buf).Wait?
      ensures Decide(buf + more) == Decide(buf)
    {
      DecideStable(buf, more);
    }
    forall buf, n: nat | Decide(buf) == Cut(n) && n <= |buf|
      ensures WholeFrame(Decide, buf[..n])
    {
      DecideLocal(buf, n);
    }
  }

  // ---- Every chunking of every port's stream ---------------------------------------------

  /** One call of onBytes, followed by a drain. */
  datatype Arrival = Arrival(port: int, bytes: seq<Byte>)

  /** Everything a port has received, in order. */
  function Stream(port: int, arrivals: seq<Arrival>): seq<Byte> {
    if |arrivals| == 0 then []
    else
      var last := arrivals[|arrivals| - 1];
      Stream(port, arrivals[..|arrivals| - 1]) + if last.port == port then last.bytes else []
  }

  /** What a port has produced, and still buffers, after the arrivals on all ports. */
  function Served(port: int, arrivals: seq<Arrival>): Outcome<Byte> {
    if |arrivals| == 0 then Outcome([], [])
    else
      var last := arrivals[|arrivals| - 1];
      var before := Served(port, arrivals[..|arrivals| - 1]);
      if last.port != port then before
      else
        var o := Run(Decide, before.rest + last.bytes);
        Outcome(before.pieces + o.pieces, o.rest)
  }

  /** Chunking independence: however a port's stream was split, and whatever arrived on other
      ports in between, the outcome is that of the whole stream fed at once. */
  lemma {:induction false} ChunkingIndependent(port: int, arrivals: seq<Arrival>)
    ensures Served(port, arrivals) == Run(Decide, Stream(port, arrivals))
  {
    if |arrivals| > 0 {
      var n := |arrivals| - 1;
      ChunkingIndependent(port, arrivals[..n]);
      var s := Stream(port, arrivals[..n]);
      if arrivals[n].port == port {
        DecideSound();
        RunSplit(Decide, s, arrivals[n].bytes);
      } else {
        assert s + [] == s;
      }
    }
  }

  /** Round trip: well-formed requests, concatenated and arbitrarily chunked into a fresh port,
      come back as exactly that sequence and leave the buffer empty. */
  lemma {:induction false} RoundTrip(port: int, arrivals: seq<Arrival>, requests: seq<seq<Byte>>)
    requires Stream(port, arrivals) == Concat(requests)
    requires forall f :: f in requests ==> WellFormed(f)
    ensures Frames(Served(port, arrivals).pieces) == requests
    ensures Served(port, arrivals).rest == []
  {
    DecideSound();
    forall f | f in requests
      ensures WholeFrame(Decide, f)
    {
      WholeIsWellFormed(f);
    }
    ChunkingIndependent(port, arrivals);
    RunOfFrames(Decide, requests);
  }

  /** On any stream, however corrupt: what a port produces is the one cut of its stream in which
      every frame is a well-formed request, every dropped byte stands where the following bytes
      rule one out, and what is left is open. */
  lemma {:induction false} ServedIsParse(port: int, arrivals: seq<Arrival>, pieces: seq<Piece<Byte>>, rest: seq<Byte>)
    ensures Served(port, arrivals) == Outcome(pieces, rest) <==>
            Parsed(WellFormed, Undecided, Stream(port, arrivals), pieces, rest)
  {
    ChunkingIndependent(port, arrivals);
    DecideSound();
    DecideImplements();
    RunIsParse(Decide, WellFormed, Undecided, Stream(port, arrivals), pieces, rest);
  }

  /** A request behind a stray byte is found, where its address is no function code. */
  lemma {:induction false} StrayByteIsDropped(port: int, arrivals: seq<Arrival>, b: Byte, f: seq<Byte>)
    requires WellFormed(f) && f[0] !in {1, 2, 3, 4, 5, 6, 0x0F, 0x10}
    requires Stream(port, arrivals) == [b] + f
    ensures Served(port, arrivals) == Outcome([Junk(b), Frame(f)], [])
  {
    var stream, pieces: seq<Piece<Byte>> := [b] + f, [Junk(b), Frame(f)];
    assert stream[1..] == f && pieces[1..] == [Frame(f)] && pieces[1..][1..] == [] && f[|f|..] == [];
    assert Parsed(WellFormed, Undecided, [], [], []);
    assert Parsed(WellFormed, Undecided, f, [Frame(f)], []);
    assert NoneInFront(WellFormed, stream);
    ServedIsParse(port, arrivals, pieces, []);
  }

  /** On any stream, however corrupt: the emitted frames are well-formed requests and, with the
      dropped bytes between them and the buffered bytes after them, spell the stream. */
  lemma {:induction false} EmittedFromStream(port: int, arrivals: seq<Arrival>)
    ensures var o := Served(port, arrivals);
            && Flatten(o.pieces) + o.rest == Stream(port, arrivals)
            && (forall f :: f in Frames(o.pieces) ==> WellFormed(f))
            && Undecided(o.rest)
  {
    var s := Stream(port, arrivals);
    ChunkingIndependent(port, arrivals);
    DecideSound();
    RunConserves(Decide, s);
    RunEmitsFrames(Decide, s);
    forall f | f in Frames(Run(Decide, s).pieces)
      ensures WellFormed(f)
    {
      WholeIsWellFormed(f);
    }
  }

  /** Buffers and collected frames are where the arrivals should have left them. */
  ghost predicate Agrees(bufs: map<int, seq<Byte>>, out: map<int, seq<seq<Byte>>>, arrivals: seq<Arrival>) {
    forall port ::
      && At(bufs, port) == Served(port, arrivals).rest
      && At(out, port) == Frames(Served(port, arrivals).pieces)
  }

  lemma AgreesNext(bufs: map<int, seq<Byte>>, out: map<int, seq<seq<Byte>>>, arrivals: seq<Arrival>, a: Arrival)
    requires Agrees(bufs, out, arrivals)
    ensures var y := Drain(Decide, At(bufs, a.port) + a.bytes);
            Agrees(bufs[a.port := y.rest], out[a.port := At(out, a.port) + y.frames], arrivals + [a])
  {
    var y := Drain(Decide, At(bufs, a.port) + a.bytes);
    assert (arrivals + [a])[..|arrivals|] == arrivals;
    forall port
      ensures At(bufs[a.port := y.rest], port) == Served(port, arrivals + [a]).rest
      ensures At(out[a.port := At(out, a.port) + y.frames], port) ==
              Frames(Served(port, arrivals + [a]).pieces)
    {
      if port == a.port {
        var before := Served(port, arrivals);
        FramesAppend(before.pieces, Run(Decide, before.rest + a.bytes).pieces);
        DrainIsRun(Decide, before.rest + a.bytes);
      }
    }
  }

  // ---- The object ------------------------------------------------------------------------

  class ModbusRtuReqAssembler {
    var bufs: map<int, seq<Byte>>

    constructor ()
      ensures bufs == map[]
    {
      bufs := map[];
    }

    function Buffer(idx: int): seq<Byte>
      reads this
    {
      At(bufs, idx)
    }

    method OnBytes(idx: int, bytes: seq<Byte>)
      modifies this
      ensures bufs == old(bufs)[idx := old(Buffer(idx)) + bytes]
    {
      var b := Buffer(idx);
      for i := 0 to |bytes|
        invariant b == old(Buffer(idx)) + bytes[..i]
      {
        b := b + [bytes[i]];
      }
      assert bytes[..|bytes|] == bytes;
      bufs := bufs[idx := b];
    }

    /** Seeks the next frame in one port's buffer; no other port changes. */
    method TryGetFrame(idx: int) returns (found: bool, frame: seq<Byte>)
      modifies this
      ensures var r := Seek(Decide, old(Buffer(idx)));
              && found == r.Found?
              && frame == (if found then r.frame else [])
              && bufs == if idx in old(bufs) then old(bufs)[idx := r.rest] else old(bufs)
    {
      if idx !in bufs {
        return false, [];
      }
      var b := bufs[idx];
      frame := [];
      while true
        invariant bufs == old(bufs) && frame == []
        invariant Seek(Decide, b) == Seek(Decide, old(bufs[idx]))
        decreases |b|
      {
        var verdict, f, rest := TryOnce(b);
        match verdict
        case Wait =>
          bufs := bufs[idx := b];
          return false, frame;
        case Drop =>
          b := rest;
        case Cut(_) =>
          bufs := bufs[idx := rest];
          return true, f;
      }
    }

    /** The body of the source's loop: size guards, function code, CRC. */
    method TryOnce(b: seq<Byte>) returns (verdict: Decision, frame: seq<Byte>, rest: seq<Byte>)
      ensures verdict == Decide(b)
      ensures match verdict
              case Wait => frame == [] && rest == b
              case Drop => frame == [] && |b| > 0 && rest == b[1..]
              case Cut(n) => 0 < n <= |b| && frame == b[..n] && rest == b[n..]
    {
      frame, rest := [], b;
      if |b| < 4 {
        return Wait, frame, rest;
      }
      match ExpectedLen(b)
      case NeedMore =>
        verdict := Wait;
      case UnknownFunction =>
        verdict, rest := Drop, b[1..];
      case Known(exp) =>
        if |b| < exp {
          return Wait, frame, rest;
        }
        var ok;
        ok, frame, rest := PopAndVerify(b, exp);
        verdict := if ok then Cut(exp) else Drop;
    }

    /** Moves exp bytes from the buffer into a frame; when the CRC fails they are pushed back,
        all but the first, which amounts to dropping one byte. */
    method PopAndVerify(b0: seq<Byte>, exp: nat) returns (ok: bool, frame: seq<Byte>, b: seq<Byte>)
      requires 1 <= exp <= |b0|
      ensures ok == CrcOk(b0[..exp])
      ensures ok ==> frame == b0[..exp] && b == b0[exp..]
      ensures !ok ==> frame == [] && b == b0[1..]
    {
      frame, b := [], b0;
      for i := 0 to exp
        invariant frame == b0[..i] && b == b0[i..]
      {
        frame := frame + [b[0]];
        b := b[1..];
      }
      ok := VerifyFrame(frame);
      if !ok {
        for i := exp downto 1
          invariant b == b0[i..]
        {
          b := [frame[i]] + b;
        }
        frame := [];
      }
    }

    /** The slave-port branch of the parser thread: append, then drain until no frame is left. */
    method Receive(idx: int, chunk: seq<Byte>) returns (frames: seq<seq<Byte>>)
      modifies this
      ensures var y := Drain(Decide, old(Buffer(idx)) + chunk);
              frames == y.frames && bufs == old(bufs)[idx := y.rest]
    {
      OnBytes(idx, chunk);
      frames := DrainPort(idx);
    }

    method DrainPort(idx: int) returns (frames: seq<seq<Byte>>)
      requires idx in bufs
      modifies this
      ensures frames == Drain(Decide, old(bufs[idx])).frames
      ensures bufs == old(bufs)[idx := Drain(Decide, old(bufs[idx])).rest]
    {
      frames := [];
      ghost var b := bufs[idx];
      ghost var all := Drain(Decide, b);
      assert [] + all.frames == all.frames;
      while true
        invariant bufs == old(bufs)[idx := b]
        invariant Onto(frames, Drain(Decide, b)) == all
        decreases |b|
      {
        DrainNext(Decide, b, frames);
        var more, frame := TryGetFrame(idx);
        b := Seek(Decide, b).rest;
        if !more {
          return;
        }
        frames := frames + [frame];
      }
    }

    /** A whole life of the assembler: every port ends up where Served says. */
    method ServeAll(arrivals: seq<Arrival>) returns (out: map<int, seq<seq<Byte>>>)
      requires bufs == map[]
      modifies this
      ensures Agrees(bufs, out, arrivals)
    {
      out := map[];
      for i := 0 to |arrivals|
        invariant Agrees(bufs, out, arrivals[..i])
      {
        var a := arrivals[i];
        AgreesNext(bufs, out, arrivals[..i], a);
        assert arrivals[..i + 1] == arrivals[..i] + [a];
        var frames := Receive(a.port, a.bytes);
        out := out[a.port := At(out, a.port) + frames];
      }
      assert arrivals[..|arrivals|] == arrivals;
    }
  }
}
