/**
 * Cutting frames off a growing buffer. A rule looks at the buffered bytes and either waits for
 * more, drops the front byte, or cuts a frame off the front. Everything here holds for any rule
 * whose decisions later bytes cannot change.
 */
module StreamCut {

  datatype Decision = Wait | Drop | Cut(len: nat)

  type Rule<!T> = seq<T> -> Decision

  /** A decision takes bytes that are there, and bytes that arrive later never change it. */
  ghost predicate Sound<T(!new)>(rule: Rule<T>) {
    && (forall buf :: rule(buf).Drop? ==> |buf| > 0)
    && (forall buf :: rule(buf).Cut? ==> 0 < rule(buf).len <= |buf|)
    && (forall buf, more {:trigger rule(buf + more)} ::
          !rule(buf).Wait? ==> rule(buf + more) == rule(buf))
  }

  /** What is cut off is exactly one frame by itself. */
  ghost predicate Local<T(!new)>(rule: Rule<T>) {
    forall buf, n: nat {:trigger buf[..n], rule(buf)} ::
      rule(buf) == Cut(n) && n <= |buf| ==> WholeFrame(rule, buf[..n])
  }

  /** A string that is exactly one frame. */
  predicate WholeFrame<T>(rule: Rule<T>, f: seq<T>) {
    rule(f) == Cut(|f|)
  }

  /** What one range of the stream became. */
  datatype Piece<T> = Frame(bytes: seq<T>) | Junk(byte: T)

  function Bytes<T>(p: Piece<T>): seq<T> {
    match p
    case Frame(f) => f
    case Junk(b) => [b]
  }

  datatype Outcome<T> = Outcome(pieces: seq<Piece<T>>, rest: seq<T>)

  function Prepend<T>(p: Piece<T>, o: Outcome<T>): Outcome<T> {
    Outcome([p] + o.pieces, o.rest)
  }

  /** How many bytes the rule takes off the front now; zero means it waits. */
  function Size<T>(rule: Rule<T>, buf: seq<T>): (n: nat)
    ensures n <= |buf|
  {
    match rule(buf)
    case Wait => 0
    case Drop => if |buf| > 0 then 1 else 0
    case Cut(n) => if n <= |buf| then n else 0
  }

  function Front<T>(rule: Rule<T>, buf: seq<T>): Piece<T>
    requires Size(rule, buf) > 0
  {
    if rule(buf).Drop? then Junk(buf[0]) else Frame(buf[..Size(rule, buf)])
  }

  /** Decide, act, repeat, until the rule waits. */
  function Run<T>(rule: Rule<T>, buf: seq<T>): Outcome<T>
    decreases |buf|
  {
    var n := Size(rule, buf);
    if n == 0 then Outcome([], buf)
    else Prepend(Front(rule, buf), Run(rule, buf[n..]))
  }

  function Flatten<T>(pieces: seq<Piece<T>>): seq<T> {
    if |pieces| == 0 then [] else Bytes(pieces[0]) + Flatten(pieces[1..])
  }

  function Frames<T>(pieces: seq<Piece<T>>): seq<seq<T>> {
    if |pieces| == 0 then []
    else if pieces[0].Frame? then [pieces[0].bytes] + Frames(pieces[1..])
    else Frames(pieces[1..])
  }

  function Concat<T>(parts: seq<seq<T>>): seq<T> {
    if |parts| == 0 then [] else parts[0] + Concat(parts[1..])
  }

  /** A per-port table in which a missing port reads as empty. */
  function At<V>(m: map<int, seq<V>>, port: int): seq<V> {
    if port in m then m[port] else []
  }

  lemma {:induction false} FramesAppend<T>(a: seq<Piece<T>>, b: seq<Piece<T>>)
    ensures Frames(a + b) == Frames(a) + Frames(b)
  {
    if |a| == 0 {
      assert a + b == b;
    } else {
      assert (a + b)[1..] == a[1..] + b;
      FramesAppend(a[1..], b);
    }
  }

  lemma {:induction false} FlattenAppend<T>(a: seq<Piece<T>>, b: seq<Piece<T>>)
    ensures Flatten(a + b) == Flatten(a) + Flatten(b)
  {
    if |a| == 0 {
      assert a + b == b;
    } else {
      assert (a + b)[1..] == a[1..] + b;
      FlattenAppend(a[1..], b);
    }
  }

  lemma {:induction false} ConcatAppend<T>(a: seq<seq<T>>, b: seq<seq<T>>)
    ensures Concat(a + b) == Concat(a) + Concat(b)
  {
    if |a| == 0 {
      assert a + b == b;
    } else {
      assert (a + b)[1..] == a[1..] + b;
      ConcatAppend(a[1..], b);
    }
  }

  lemma PrependParts<T>(p: Piece<T>, o: Outcome<T>)
    ensures Flatten(Prepend(p, o).pieces) == Bytes(p) + Flatten(o.pieces)
    ensures Frames(Prepend(p, o).pieces) == (if p.Frame? then [p.bytes] else []) + Frames(o.pieces)
  {
    assert ([p] + o.pieces)[1..] == o.pieces;
  }

  lemma FrontStable<T(!new)>(rule: Rule<T>, buf: seq<T>, more: seq<T>)
    requires Sound(rule) && Size(rule, buf) > 0
    ensures Size(rule, buf + more) == Size(rule, buf)
    ensures Front(rule, buf + more) == Front(rule, buf)
  {
    assert rule(buf + more) == rule(buf);
    assert (buf + more)[..Size(rule, buf)] == buf[..Size(rule, buf)];
  }

  lemma FrontBytes<T>(rule: Rule<T>, buf: seq<T>)
    requires Size(rule, buf) > 0
    ensures Bytes(Front(rule, buf)) == buf[..Size(rule, buf)]
  {}

  /** Frames and dropped bytes, in order, followed by the bytes still buffered, spell the
      stream: no byte is lost, duplicated or reordered. */
  lemma {:induction false} RunConserves<T>(rule: Rule<T>, buf: seq<T>)
    ensures Flatten(Run(rule, buf).pieces) + Run(rule, buf).rest == buf
    decreases |buf|
  {
    var n := Size(rule, buf);
    if n > 0 {
      var o := Run(rule, buf[n..]);
      RunConserves(rule, buf[n..]);
      FrontBytes(rule, buf);
      PrependParts(Front(rule, buf), o);
      Rejoin(buf, n, Flatten(o.pieces), o.rest);
    }
  }

  lemma Rejoin<T>(s: seq<T>, n: nat, mid: seq<T>, end: seq<T>)
    requires n <= |s| && mid + end == s[n..]
    ensures (s[..n] + mid) + end == s
  {
    assert (s[..n] + mid) + end == s[..n] + (mid + end);
  }

  /** Every emitted frame is exactly one frame, and stepping stops only when the rule waits. */
  lemma {:induction false} RunEmitsFrames<T(!new)>(rule: Rule<T>, buf: seq<T>)
    requires Sound(rule) && Local(rule)
    ensures forall f :: f in Frames(Run(rule, buf).pieces) ==> WholeFrame(rule, f)
    ensures rule(Run(rule, buf).rest).Wait?
    decreases |buf|
  {
    var n := Size(rule, buf);
    if n > 0 {
      RunEmitsFrames(rule, buf[n..]);
      PrependParts(Front(rule, buf), Run(rule, buf[n..]));
      assert rule(buf).Cut? ==> WholeFrame(rule, buf[..n]);
    }
  }

  // ---- What a cut stream is, said of the bytes alone -------------------------------------

  /** No string of the front of the buffer is a whole frame. */
  ghost predicate NoneInFront<T>(whole: seq<T> -> bool, buf: seq<T>) {
    forall n :: 0 <= n <= |buf| ==> !whole(buf[..n])
  }

  /** A stream cut into frames, each whole, and dropped bytes, each at a place where the bytes
      that follow settle that no frame begins, up to where it is still open what follows. */
  ghost predicate Parsed<T>(
      whole: seq<T> -> bool, open: seq<T> -> bool, stream: seq<T>, pieces: seq<Piece<T>>, rest: seq<T>)
    decreases |pieces|
  {
    if |pieces| == 0 then stream == rest && open(rest)
    else match pieces[0]
      case Frame(f) => f <= stream && whole(f) && Parsed(whole, open, stream[|f|..], pieces[1..], rest)
      case Junk(b) =>
        && |stream| > 0 && b == stream[0] && !open(stream) && NoneInFront(whole, stream)
        && Parsed(whole, open, stream[1..], pieces[1..], rest)
  }

  /** The rule waits on open buffers, cuts a whole frame where one is in front, and else drops. */
  ghost predicate Implements<T(!new)>(rule: Rule<T>, whole: seq<T> -> bool, open: seq<T> -> bool) {
    && (forall buf :: rule(buf).Wait? <==> open(buf))
    && (forall f :: WholeFrame(rule, f) <==> whole(f))
  }

  lemma WholeInFront<T(!new)>(rule: Rule<T>, f: seq<T>, stream: seq<T>)
    requires Sound(rule) && WholeFrame(rule, f) && f <= stream
    ensures Size(rule, stream) == |f| && Front(rule, stream) == Frame(f)
  {
    var more := stream[|f|..];
    assert stream == f + more;
    FrontStable(rule, f, more);
    assert f[..|f|] == f;
  }

  lemma DropMeansNone<T(!new)>(rule: Rule<T>, whole: seq<T> -> bool, open: seq<T> -> bool, stream: seq<T>)
    requires Sound(rule) && Implements(rule, whole, open) && rule(stream).Drop?
    ensures NoneInFront(whole, stream)
  {
    forall n | 0 <= n <= |stream|
      ensures !whole(stream[..n])
    {
      if whole(stream[..n]) {
        WholeInFront(rule, stream[..n], stream);
      }
    }
  }

  lemma {:induction false} RunHead<T>(rule: Rule<T>, stream: seq<T>, pieces: seq<Piece<T>>, rest: seq<T>)
    requires |pieces| > 0
    ensures var n := Size(rule, stream);
            Run(rule, stream) == Outcome(pieces, rest) <==>
            n > 0 && pieces[0] == Front(rule, stream) && Run(rule, stream[n..]) == Outcome(pieces[1..], rest)
  {
    var n := Size(rule, stream);
    if n > 0 {
      var p, o := Front(rule, stream), Run(rule, stream[n..]);
      assert ([p] + o.pieces)[1..] == o.pieces && ([p] + o.pieces)[0] == p;
      assert pieces == [pieces[0]] + pieces[1..];
    }
  }

  lemma {:induction false} ParsedHead<T(!new)>(
      rule: Rule<T>, whole: seq<T> -> bool, open: seq<T> -> bool, stream: seq<T>, pieces: seq<Piece<T>>, rest: seq<T>)
    requires Sound(rule) && Local(rule) && Implements(rule, whole, open) && |pieces| > 0
    ensures var n := Size(rule, stream);
            Parsed(whole, open, stream, pieces, rest) <==>
            n > 0 && pieces[0] == Front(rule, stream) && Parsed(whole, open, stream[n..], pieces[1..], rest)
  {
    var p := pieces[0];
    if p.Frame? && p.bytes <= stream && whole(p.bytes) {
      WholeInFront(rule, p.bytes, stream);
    }
    if rule(stream).Drop? {
      DropMeansNone(rule, whole, open, stream);
    } else if rule(stream).Cut? {
      assert WholeFrame(rule, stream[..Size(rule, stream)]);
    }
  }

  /** Running the rule is the one way to cut the stream so. */
  lemma {:induction false} RunIsParse<T(!new)>(
      rule: Rule<T>, whole: seq<T> -> bool, open: seq<T> -> bool, stream: seq<T>, pieces: seq<Piece<T>>, rest: seq<T>)
    requires Sound(rule) && Local(rule) && Implements(rule, whole, open)
    ensures Parsed(whole, open, stream, pieces, rest) <==> Run(rule, stream) == Outcome(pieces, rest)
    decreases |pieces|
  {
    if |pieces| > 0 {
      RunHead(rule, stream, pieces, rest);
      ParsedHead(rule, whole, open, stream, pieces, rest);
      var n := Size(rule, stream);
      if n > 0 {
        RunIsParse(rule, whole, open, stream[n..], pieces[1..], rest);
      }
    }
  }

  /** Stepping a, then b appended to what a left behind. */
  function RunTwice<T>(rule: Rule<T>, a: seq<T>, b: seq<T>): Outcome<T> {
    var first := Run(rule, a);
    var second := Run(rule, first.rest + b);
    Outcome(first.pieces + second.pieces, second.rest)
  }

  /** Splitting a stream in two changes nothing. */
  lemma {:induction false} RunSplit<T(!new)>(rule: Rule<T>, a: seq<T>, b: seq<T>)
    requires Sound(rule)
    ensures Run(rule, a + b) == RunTwice(rule, a, b)
    decreases |a|
  {
    var n := Size(rule, a);
    if n == 0 {
      assert Run(rule, a) == Outcome([], a);
    } else {
      FrontStable(rule, a, b);
      RunSplit(rule, a[n..], b);
      RunSplitStep(rule, a, b, n);
    }
  }

  lemma {:induction false} RunSplitStep<T>(rule: Rule<T>, a: seq<T>, b: seq<T>, n: nat)
    requires 0 < n == Size(rule, a) == Size(rule, a + b)
    requires Front(rule, a + b) == Front(rule, a)
    requires Run(rule, a[n..] + b) == RunTwice(rule, a[n..], b)
    ensures Run(rule, a + b) == RunTwice(rule, a, b)
  {
    assert (a + b)[n..] == a[n..] + b;
    PrependOutside(Front(rule, a), Run(rule, a[n..]), Run(rule, Run(rule, a[n..]).rest + b));
  }

  lemma PrependOutside<T>(p: Piece<T>, o: Outcome<T>, q: Outcome<T>)
    ensures Prepend(p, Outcome(o.pieces + q.pieces, q.rest)) ==
            Outcome(Prepend(p, o).pieces + q.pieces, q.rest)
  {
    assert [p] + (o.pieces + q.pieces) == ([p] + o.pieces) + q.pieces;
  }

  /** Frames sent back to back come back as exactly those frames, with nothing left over. */
  lemma {:induction false} RunOfFrames<T(!new)>(rule: Rule<T>, fs: seq<seq<T>>)
    requires Sound(rule)
    requires forall f :: f in fs ==> WholeFrame(rule, f)
    ensures Frames(Run(rule, Concat(fs)).pieces) == fs && Run(rule, Concat(fs)).rest == []
  {
    if |fs| > 0 {
      var f, tail := fs[0], Concat(fs[1..]);
      assert WholeFrame(rule, f);
      FrontStable(rule, f, tail);
      assert (f + tail)[|f|..] == tail;
      RunOfFrames(rule, fs[1..]);
      PrependParts(Front(rule, f), Run(rule, tail));
      assert f[..|f|] == f;
    }
  }

  // ---- A run in progress -----------------------------------------------------------------

  /** Stepping the rest of the buffer completes what stepping the whole stream would give. */
  ghost predicate OnCourse<T>(rule: Rule<T>, stream: seq<T>, pieces: seq<Piece<T>>, buffer: seq<T>) {
    var whole, ahead := Run(rule, stream), Run(rule, buffer);
    whole.pieces == pieces + ahead.pieces && whole.rest == ahead.rest
  }

  lemma TakeOnCourse<T>(rule: Rule<T>, stream: seq<T>, pieces: seq<Piece<T>>, buffer: seq<T>)
    requires OnCourse(rule, stream, pieces, buffer)
    ensures var n := Size(rule, buffer);
            n > 0 ==> OnCourse(rule, stream, pieces + [Front(rule, buffer)], buffer[n..])
  {
    var n := Size(rule, buffer);
    if n > 0 {
      var p, o := Front(rule, buffer), Run(rule, buffer[n..]);
      assert Run(rule, buffer) == Prepend(p, o);
      assert pieces + ([p] + o.pieces) == (pieces + [p]) + o.pieces;
    }
  }

  lemma ArriveOnCourse<T(!new)>(
      rule: Rule<T>, stream: seq<T>, pieces: seq<Piece<T>>, buffer: seq<T>, bytes: seq<T>)
    requires Sound(rule) && OnCourse(rule, stream, pieces, buffer)
    ensures OnCourse(rule, stream + bytes, pieces, buffer + bytes)
  {
    RunSplit(rule, stream, bytes);
    RunSplit(rule, buffer, bytes);
    Reassociate(pieces, Run(rule, buffer).pieces, Run(rule, Run(rule, buffer).rest + bytes).pieces);
  }

  lemma Reassociate<T>(a: seq<T>, b: seq<T>, c: seq<T>)
    ensures (a + b) + c == a + (b + c)
  {}

  lemma {:induction false} SpellsStream<T>(rule: Rule<T>, stream: seq<T>, pieces: seq<Piece<T>>, buffer: seq<T>)
    requires OnCourse(rule, stream, pieces, buffer)
    ensures Flatten(pieces) + buffer == stream
  {
    var ahead := Run(rule, buffer);
    RunConserves(rule, stream);
    RunConserves(rule, buffer);
    FlattenAppend(pieces, ahead.pieces);
    Reassociate(Flatten(pieces), Flatten(ahead.pieces), ahead.rest);
  }

  // ---- One frame at a time ---------------------------------------------------------------

  /** The next frame and what follows it, or no frame and what is left waiting. */
  datatype Search<T> = Found(frame: seq<T>, rest: seq<T>) | Exhausted(rest: seq<T>)

  function Seek<T>(rule: Rule<T>, buf: seq<T>): (r: Search<T>)
    ensures r.Found? ==> |r.rest| < |buf|
    decreases |buf|
  {
    var n := Size(rule, buf);
    if n == 0 then Exhausted(buf)
    else if rule(buf).Drop? then Seek(rule, buf[1..])
    else Found(buf[..n], buf[n..])
  }

  /** Seeking is running up to the first frame. */
  lemma {:induction false} SeekIsRun<T>(rule: Rule<T>, buf: seq<T>)
    ensures match Seek(rule, buf)
            case Exhausted(rest) =>
              Frames(Run(rule, buf).pieces) == [] && Run(rule, buf).rest == rest
            case Found(f, rest) =>
              && Frames(Run(rule, buf).pieces) == [f] + Frames(Run(rule, rest).pieces)
              && Run(rule, buf).rest == Run(rule, rest).rest
    decreases |buf|
  {
    var n := Size(rule, buf);
    if n > 0 {
      PrependParts(Front(rule, buf), Run(rule, buf[n..]));
      if rule(buf).Drop? {
        SeekIsRun(rule, buf[1..]);
      }
    }
  }

  /** Frames taken one at a time until none is left. */
  datatype Yield<T> = Yield(frames: seq<seq<T>>, rest: seq<T>)

  function Drain<T>(rule: Rule<T>, buf: seq<T>): Yield<T>
    decreases |buf|
  {
    match Seek(rule, buf)
    case Exhausted(rest) => Yield([], rest)
    case Found(f, rest) =>
      var y := Drain(rule, rest);
      Yield([f] + y.frames, y.rest)
  }

  lemma {:induction false} DrainIsRun<T>(rule: Rule<T>, buf: seq<T>)
    ensures Drain(rule, buf) == Yield(Frames(Run(rule, buf).pieces), Run(rule, buf).rest)
    decreases |buf|
  {
    SeekIsRun(rule, buf);
    if Seek(rule, buf).Found? {
      DrainIsRun(rule, Seek(rule, buf).rest);
    }
  }

  function Onto<T>(frames: seq<seq<T>>, y: Yield<T>): Yield<T> {
    Yield(frames + y.frames, y.rest)
  }

  lemma {:induction false} DrainNext<T>(rule: Rule<T>, buf: seq<T>, frames: seq<seq<T>>)
    ensures Onto(frames, Drain(rule, buf)) ==
            match Seek(rule, buf)
            case Exhausted(rest) => Yield(frames, rest)
            case Found(f, rest) => Onto(frames + [f], Drain(rule, rest))
  {
    match Seek(rule, buf)
    case Exhausted(rest) =>
    case Found(f, rest) =>
      assert frames + ([f] + Drain(rule, rest).frames) == (frames + [f]) + Drain(rule, rest).frames;
  }
}
