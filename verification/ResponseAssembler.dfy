/**
 * FrameAssembler (services/parser/frame_assembler.cpp): responses are cut off a per-link buffer
 * by length alone. One call makes one decision, and a call that drops a byte reports no frame.
 */
module ResponseAssembler {
  import opened Octets
  import opened StreamCut

  /** One call of tryGetFrame. */
  function Decide(buf: seq<Byte>): Decision {
    if |buf| < 5 then Wait
    else if buf[1] >= 0x80 then Cut(5)
    else if buf[1] == 0x03 then
      if buf[2] == 0 || buf[2] > 0x7D then Drop
      else if |buf| < 5 + buf[2] as nat then Wait
      else Cut(5 + buf[2] as nat)
    else if buf[1] == 0x06 || buf[1] == 0x10 then
      if |buf| < 8 then Wait else Cut(8)
    else Drop
  }

  /** A response as the protocol defines it: 5 bytes for an exception, counted for function
      code 3, 8 bytes for 6 and 16. The CRC is left to the device protocol. */
  predicate WellFormed(f: seq<Byte>) {
    && |f| >= 5
    && if f[1] >= 0x80 then |f| == 5
       else if f[1] == 0x03 then 1 <= f[2] <= 0x7D && |f| == 5 + f[2] as nat
       else (f[1] == 0x06 || f[1] == 0x10) && |f| == 8
  }

  lemma WholeIsWellFormed(f: seq<Byte>)
    ensures WholeFrame(Decide, f) <==> WellFormed(f)
  {}

  /** It is open what a buffer holds: under five bytes, or a response not there to its end. */
  predicate Undecided(buf: seq<Byte>) {
    || |buf| < 5
    || (buf[1] == 3 && 1 <= buf[2] <= 125 && |buf| < 5 + buf[2] as nat)
    || (buf[1] in {6, 16} && |buf| < 8)
  }

  lemma DecideSound()
    ensures Sound(Decide) && Local(Decide)
  {}

  lemma DecideImplements()
    ensures Implements(Decide, WellFormed, Undecided)
  {}

  // ---- Every interleaving of arrivals and attempts, on every link ------------------------

  datatype Call = OnBytes(link: int, bytes: seq<Byte>) | TryGet(link: int)

  /** One link: all it received, what its bytes became so far, and what it still buffers. */
  datatype Link = Link(stream: seq<Byte>, pieces: seq<Piece<Byte>>, buffer: seq<Byte>)

  function Attempt(l: Link): Link {
    var n := Size(Decide, l.buffer);
    if n == 0 then l
    else l.(pieces := l.pieces + [Front(Decide, l.buffer)], buffer := l.buffer[n..])
  }

  function Act(l: Link, c: Call): Link {
    match c
    case OnBytes(_, bytes) => l.(stream := l.stream + bytes, buffer := l.buffer + bytes)
    case TryGet(_) => Attempt(l)
  }

  /** A link after the calls made on all links. */
  function After(link: int, calls: seq<Call>): Link {
    if |calls| == 0 then Link([], [], [])
    else
      var before := After(link, calls[..|calls| - 1]);
      var c := calls[|calls| - 1];
      if c.link == link then Act(before, c) else before
  }

  /** The calls one link sees. */
  function Own(link: int, calls: seq<Call>): seq<Call> {
    if |calls| == 0 then []
    else
      var c := calls[|calls| - 1];
      Own(link, calls[..|calls| - 1]) + if c.link == link then [c] else []
  }

  ghost predicate LinkOnCourse(l: Link) {
    OnCourse(Decide, l.stream, l.pieces, l.buffer)
  }

  lemma {:induction false} AlwaysOnCourse(link: int, calls: seq<Call>)
    ensures LinkOnCourse(After(link, calls))
  {
    if |calls| == 0 {
      assert Run<Byte>(Decide, []) == Outcome([], []);
    } else {
      var before, c := After(link, calls[..|calls| - 1]), calls[|calls| - 1];
      AlwaysOnCourse(link, calls[..|calls| - 1]);
      if c.link == link {
        match c
        case OnBytes(_, bytes) =>
          DecideSound();
          ArriveOnCourse(Decide, before.stream, before.pieces, before.buffer, bytes);
        case TryGet(_) =>
          TakeOnCourse(Decide, before.stream, before.pieces, before.buffer);
      }
    }
  }

  lemma {:induction false} StreamIsReceived(link: int, calls: seq<Call>)
    ensures After(link, calls).stream == Received(link, calls)
  {
    if |calls| > 0 {
      StreamIsReceived(link, calls[..|calls| - 1]);
    }
  }

  function Received(link: int, calls: seq<Call>): seq<Byte> {
    if |calls| == 0 then []
    else
      var c := calls[|calls| - 1];
      Received(link, calls[..|calls| - 1]) + if c.link == link && c.OnBytes? then c.bytes else []
  }

  /** After any calls on any links: a link has emitted a prefix of the frames its whole stream
      would give, each well formed, and its frames, dropped bytes and buffer spell what it
      received. */
  lemma {:induction false} EmittedIsPrefix(link: int, calls: seq<Call>)
    ensures var l := After(link, calls);
            && Frames(l.pieces) <= Frames(Run(Decide, Received(link, calls)).pieces)
            && l.pieces <= Run(Decide, Received(link, calls)).pieces
            && Flatten(l.pieces) + l.buffer == Received(link, calls)
            && forall f :: f in Frames(l.pieces) ==> WellFormed(f)
  {
    var l := After(link, calls);
    AlwaysOnCourse(link, calls);
    StreamIsReceived(link, calls);
    var ahead := Run(Decide, l.buffer);
    FramesAppend(l.pieces, ahead.pieces);
    SpellsStream(Decide, l.stream, l.pieces, l.buffer);
    DecideSound();
    RunEmitsFrames(Decide, l.stream);
    forall f | f in Frames(l.pieces)
      ensures WellFormed(f)
    {
      WholeIsWellFormed(f);
    }
  }

  /** An attempt leaves a buffer that is open as it is, reports the well-formed response in front
      if there is one, and drops one byte otherwise. */
  lemma AttemptExact(l: Link)
    ensures Undecided(l.buffer) ==> Attempt(l) == l
    ensures forall f :: f <= l.buffer && WellFormed(f) ==>
              Attempt(l) == l.(pieces := l.pieces + [Frame(f)], buffer := l.buffer[|f|..])
    ensures !Undecided(l.buffer) && NoneInFront(WellFormed, l.buffer) ==>
              Attempt(l) == l.(pieces := l.pieces + [Junk(l.buffer[0])], buffer := l.buffer[1..])
  {
    DecideSound();
    DecideImplements();
    forall f | f <= l.buffer && WellFormed(f)
      ensures Size(Decide, l.buffer) == |f| && Front(Decide, l.buffer) == Frame(f)
    {
      WholeIsWellFormed(f);
      WholeInFront(Decide, f, l.buffer);
    }
    if Decide(l.buffer).Cut? {
      assert WellFormed(l.buffer[..Size(Decide, l.buffer)]);
    }
  }

  /** What enough attempts make of a stream is its one cut in which every frame is a well-formed
      response, every dropped byte stands where the following bytes rule one out, and what is
      left is open. */
  lemma {:induction false} QuiescentIsParse(link: int, calls: seq<Call>)
    requires Attempt(After(link, calls)) == After(link, calls)
    ensures var l := After(link, calls);
            Parsed(WellFormed, Undecided, Received(link, calls), l.pieces, l.buffer)
  {
    var l := After(link, calls);
    AlwaysOnCourse(link, calls);
    StreamIsReceived(link, calls);
    DecideSound();
    DecideImplements();
    RunIsParse(Decide, WellFormed, Undecided, l.stream, l.pieces, l.buffer);
  }

  /** The pieces a link has made so far begin that cut of what it received. */
  lemma {:induction false} PiecesBeginParse(link: int, calls: seq<Call>, pieces: seq<Piece<Byte>>, rest: seq<Byte>)
    requires Parsed(WellFormed, Undecided, Received(link, calls), pieces, rest)
    ensures After(link, calls).pieces <= pieces
  {
    EmittedIsPrefix(link, calls);
    DecideSound();
    DecideImplements();
    RunIsParse(Decide, WellFormed, Undecided, Received(link, calls), pieces, rest);
  }

  /** Calls on other links make no difference. */
  lemma {:induction false} LinksIndependent(link: int, calls: seq<Call>)
    ensures After(link, calls) == After(link, Own(link, calls))
  {
    if |calls| > 0 {
      var rest, c := calls[..|calls| - 1], calls[|calls| - 1];
      LinksIndependent(link, rest);
      if c.link == link {
        assert (Own(link, rest) + [c])[..|Own(link, rest)|] == Own(link, rest);
      } else {
        assert Own(link, rest) + [] == Own(link, rest);
      }
    }
  }

  // ---- Where the caller's drain loop stops -----------------------------------------------

  /** The master-port loop calls tryGetFrame until it reports no frame, which a dropped byte
      also does. */
  function DrainLoop(buf: seq<Byte>): Outcome<Byte>
    decreases |buf|
  {
    var n := Size(Decide, buf);
    if n == 0 then Outcome([], buf)
    else if Decide(buf).Drop? then Outcome([Front(Decide, buf)], buf[n..])
    else Prepend(Front(Decide, buf), DrainLoop(buf[n..]))
  }

  /** One drain loop takes the pieces up to and including the first dropped byte, so it reaches
      quiescence exactly when no byte is dropped before the last piece. */
  lemma {:induction false} DrainLoopQuiescent(buf: seq<Byte>)
    ensures DrainLoop(buf).pieces <= Run(Decide, buf).pieces
    ensures DrainLoop(buf) == Run(Decide, buf) <==>
            var ps := Run(Decide, buf).pieces;
            forall i :: 0 <= i < |ps| - 1 ==> ps[i].Frame?
    decreases |buf|
  {
    var n := Size(Decide, buf);
    if n > 0 {
      var p, o, d := Front(Decide, buf), Run(Decide, buf[n..]), DrainLoop(buf[n..]);
      var ps := [p] + o.pieces;
      assert Run(Decide, buf) == Outcome(ps, o.rest);
      if Decide(buf).Drop? {
        assert ps[0] == p && p.Junk?;
        if |o.pieces| > 0 {
          assert !ps[0].Frame?;
        } else {
          assert o == Outcome([], buf[n..]);
        }
      } else {
        DrainLoopQuiescent(buf[n..]);
        assert ([p] + d.pieces)[1..] == d.pieces && ps[1..] == o.pieces;
        assert forall i :: 0 <= i < |o.pieces| ==> ps[i + 1] == o.pieces[i];
        assert forall i :: 0 < i < |ps| ==> ps[i] == o.pieces[i - 1];
      }
    }
  }

  /** A complete response behind one stray byte is not delivered by the drain loop of the chunk
      that brought it, although stepping on would deliver it. */
  lemma StrayByteDelaysResponse()
    ensures var stray: seq<Byte> := [0x55, 0x01, 0x86, 0x02, 0xC3, 0xA1];
            && Frames(DrainLoop(stray).pieces) == []
            && Frames(Run(Decide, stray).pieces) == [[0x01, 0x86, 0x02, 0xC3, 0xA1]]
  {
    var stray: seq<Byte> := [0x55, 0x01, 0x86, 0x02, 0xC3, 0xA1];
    var response: seq<Byte> := [0x01, 0x86, 0x02, 0xC3, 0xA1];
    assert stray[1..] == response && response[..5] == response && response[5..] == [];
    PrependParts(Frame(response), Run<Byte>(Decide, []));
    PrependParts(Junk(0x55), Run(Decide, response));
  }

  ghost predicate Agrees(buffers: map<int, seq<Byte>>, out: map<int, seq<seq<Byte>>>, calls: seq<Call>) {
    forall link ::
      && At(buffers, link) == After(link, calls).buffer
      && At(out, link) == Frames(After(link, calls).pieces)
  }

  /** The frame an attempt on this buffer reports, if any. */
  function Reported(buf: seq<Byte>): seq<seq<Byte>> {
    if Decide(buf).Cut? then [buf[..Size(Decide, buf)]] else []
  }

  lemma AttemptReports(l: Link)
    ensures Attempt(l).buffer == l.buffer[Size(Decide, l.buffer)..]
    ensures Frames(Attempt(l).pieces) == Frames(l.pieces) + Reported(l.buffer)
  {
    if Size(Decide, l.buffer) > 0 {
      var p := Front(Decide, l.buffer);
      FramesAppend(l.pieces, [p]);
      assert [p][1..] == [];
    }
  }

  lemma {:induction false} AgreesNext(buffers: map<int, seq<Byte>>, out: map<int, seq<seq<Byte>>>, calls: seq<Call>,
                                      c: Call,
                   b: seq<Byte>, fs: seq<seq<Byte>>)
    requires Agrees(buffers, out, calls)
    requires var l := Act(After(c.link, calls), c);
             b == l.buffer && At(out, c.link) + fs == Frames(l.pieces)
    ensures Agrees(buffers[c.link := b], out[c.link := At(out, c.link) + fs], calls + [c])
  {
    forall link
      ensures At(buffers[c.link := b], link) == After(link, calls + [c]).buffer
      ensures At(out[c.link := At(out, c.link) + fs], link) == Frames(After(link, calls + [c]).pieces)
    {
      AfterSnoc(link, calls, c);
    }
  }

  lemma {:induction false} AfterSnoc(link: int, calls: seq<Call>, c: Call)
    ensures After(link, calls + [c]) ==
            if c.link == link then Act(After(link, calls), c) else After(link, calls)
  {
    assert (calls + [c])[..|calls|] == calls;
  }

  // ---- The object ------------------------------------------------------------------------

  class FrameAssembler {
    var buffers: map<int, seq<Byte>>

    constructor ()
      ensures buffers == map[]
    {
      buffers := map[];
    }

    function Buffer(link: int): seq<Byte>
      reads this
    {
      At(buffers, link)
    }

    method OnBytes(link: int, bytes: seq<Byte>)
      modifies this
      ensures buffers == old(buffers)[link := old(Buffer(link)) + bytes]
    {
      buffers := buffers[link := Buffer(link) + bytes];
    }

    /** One decision on one link: a frame is reported exactly when one is cut, a dropped byte
        reports none, and looking up a link creates its buffer. */
    method TryGetFrame(link: int) returns (found: bool, out: seq<Byte>)
      modifies this
      ensures var b := old(Buffer(link));
              var n := Size(Decide, b);
              && found == Decide(b).Cut?
              && out == (if found then b[..n] else [])
              && buffers == old(buffers)[link := b[n..]]
      ensures found ==> WellFormed(out)
    {
      out := [];
      var buf := Buffer(link);
      buffers := buffers[link := buf];
      if |buf| < 5 {
        return false, out;
      }
      var func := buf[1];
      if func >= 0x80 {
        found, out, buf := true, buf[..5], buf[5..];
      } else if func == 0x03 {
        var byteCount := buf[2];
        if byteCount == 0 || byteCount > 0x7D {
          found, buf := false, buf[1..];
        } else {
          var expectLen := 3 + byteCount as nat + 2;
          if |buf| < expectLen {
            return false, out;
          }
          found, out, buf := true, buf[..expectLen], buf[expectLen..];
        }
      } else if func == 0x06 || func == 0x10 {
        if |buf| < 8 {
          return false, out;
        }
        found, out, buf := true, buf[..8], buf[8..];
      } else {
        found, buf := false, buf[1..];
      }
      buffers := buffers[link := buf];
    }

    /** One call moves its link as Act says and reports the frames Act adds. */
    method Do(c: Call, ghost l: Link) returns (got: seq<seq<Byte>>)
      requires l.buffer == Buffer(c.link)
      modifies this
      ensures buffers == old(buffers)[c.link := Act(l, c).buffer]
      ensures Frames(Act(l, c).pieces) == Frames(l.pieces) + got
    {
      got := [];
      match c
      case OnBytes(link, bytes) =>
        OnBytes(link, bytes);
      case TryGet(link) =>
        AttemptReports(l);
        var found, frame := TryGetFrame(link);
        if found {
          got := [frame];
        }
    }

    /** Any calls on any links of a fresh assembler leave every link where After says. */
    method Perform(calls: seq<Call>) returns (out: map<int, seq<seq<Byte>>>)
      requires buffers == map[]
      modifies this
      ensures Agrees(buffers, out, calls)
    {
      out := map[];
      for i := 0 to |calls|
        invariant Agrees(buffers, out, calls[..i])
      {
        var c := calls[i];
        ghost var was := buffers;
        var got := Do(c, After(c.link, calls[..i]));
        AgreesNext(was, out, calls[..i], c, buffers[c.link], got);
        out := out[c.link := At(out, c.link) + got];
        assert calls[..i + 1] == calls[..i] + [c];
      }
      assert calls[..|calls|] == calls;
    }
  }
}
