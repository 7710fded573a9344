/** The per-thread stack of call frames that carries exceptions from Ruby callbacks across native code. */
module CallFrames {
  import opened Wrappers

  type Exception = string

  /** How a Ruby block ends: with a value for its caller or with an exception. */
  datatype Ending = Return(value: int) | Raise(exc: Exception)

  /** A Ruby block: native calls in turn, each perhaps with a rescue around it, and then its ending. */
  datatype Block = Block(calls: seq<Call>, ending: Ending)

  /** A native call: the callbacks it makes into Ruby on this thread. A blocking call can also be
      interrupted by an exception when it takes the lock again. */
  datatype Call = Call(callbacks: seq<Block>, blocking: bool, interrupt: Option<Exception>, rescued: bool)

  // ---------------------------------------------------------------- what a program should see

  /** What a block ends with: the exception of its first call to raise outside a rescue, else its own ending. */
  function BlockEnding(b: Block, from: nat): Ending
    requires from <= |b.calls|
    decreases b, |b.calls| - from
  {
    if from == |b.calls| then b.ending
    else
      var raised := CallRaises(b.calls[from]);
      if raised.Some? && !b.calls[from].rescued then Raise(raised.value) else BlockEnding(b, from + 1)
  }

  /** A call raises the exception that interrupted it, else the one its last callback ended with. */
  function CallRaises(c: Call): Option<Exception>
    decreases c, 0
  {
    if c.blocking && c.interrupt.Some? then c.interrupt
    else if c.callbacks == [] then None
    else
      match BlockEnding(c.callbacks[|c.callbacks| - 1], 0)
      case Raise(e) => Some(e)
      case Return(_) => None
  }

  /** What interrupts a call: only a blocking one can be. */
  function Interruption(c: Call): Option<Exception> {
    if c.blocking then c.interrupt else None
  }

  /** The same calls and blocks throughout, interrupted alike, but any of the calls may block in one tree and
      not in the other. */
  predicate SameButBlocking(c: Call, d: Call)
    decreases c
  {
    && Interruption(c) == Interruption(d) && c.rescued == d.rescued && |c.callbacks| == |d.callbacks|
    && forall i :: 0 <= i < |c.callbacks| ==> SameBlock(c.callbacks[i], d.callbacks[i])
  }

  predicate SameBlock(b: Block, e: Block)
    decreases b
  {
    && b.ending == e.ending && |b.calls| == |e.calls|
    && forall i :: 0 <= i < |b.calls| ==> SameButBlocking(b.calls[i], e.calls[i])
  }

  /** The two branches of a call agree: which of the calls in a program block, at any depth, does not change
      what the program raises. */
  lemma {:induction false} BlockingAgrees(c: Call, d: Call)
    requires SameButBlocking(c, d)
    ensures CallRaises(c) == CallRaises(d)
    decreases c, 0
  {
    if c.callbacks != [] {
      var n := |c.callbacks| - 1;
      assert SameBlock(c.callbacks[n], d.callbacks[n]);
      BlockingAgreesInside(c.callbacks[n], d.callbacks[n], 0);
    }
  }

  lemma {:induction false} BlockingAgreesInside(b: Block, e: Block, from: nat)
    requires SameBlock(b, e) && from <= |b.calls|
    ensures BlockEnding(b, from) == BlockEnding(e, from)
    decreases b, |b.calls| - from
  {
    if from < |b.calls| {
      assert SameButBlocking(b.calls[from], e.calls[from]);
      BlockingAgrees(b.calls[from], e.calls[from]);
      BlockingAgreesInside(b, e, from + 1);
    }
  }

  /** No block anywhere in the call ends with an exception. */
  predicate QuietCall(c: Call)
    decreases c
  {
    forall i :: 0 <= i < |c.callbacks| ==> QuietBlock(c.callbacks[i])
  }

  predicate QuietBlock(b: Block)
    decreases b
  {
    b.ending.Return? && forall i :: 0 <= i < |b.calls| ==> QuietCall(b.calls[i])
  }

  /** Every native call makes at most one callback, and none inside it is rescued or interrupted. */
  predicate PlainCall(c: Call)
    decreases c
  {
    |c.callbacks| <= 1 && c.interrupt.None? && forall i :: 0 <= i < |c.callbacks| ==> PlainBlock(c.callbacks[i])
  }

  predicate PlainBlock(b: Block)
    decreases b
  {
    forall i :: 0 <= i < |b.calls| ==> !b.calls[i].rescued && PlainCall(b.calls[i])
  }

  /** In such a program no exception is lost, however deep in the nesting it is raised: the outermost call
      raises if and only if some block did. Only a rescue or a later callback of the same call can drop one. */
  lemma {:induction false} NoExceptionIsLost(c: Call)
    requires PlainCall(c)
    ensures CallRaises(c) == None <==> QuietCall(c)
    decreases c, 0
  {
    if c.callbacks != [] {
      assert PlainBlock(c.callbacks[0]);
      BlockRaisesUnlessQuiet(c.callbacks[0], 0);
      assert QuietCall(c) <==> QuietBlock(c.callbacks[0]);
    }
  }

  lemma {:induction false} BlockRaisesUnlessQuiet(b: Block, from: nat)
    requires PlainBlock(b) && from <= |b.calls|
    ensures BlockEnding(b, from).Return?
       <==> b.ending.Return? && forall i :: from <= i < |b.calls| ==> QuietCall(b.calls[i])
    decreases b, |b.calls| - from
  {
    if from < |b.calls| {
      NoExceptionIsLost(b.calls[from]);
      BlockRaisesUnlessQuiet(b, from + 1);
    }
  }

  /** An interrupted call raises its interrupt, whatever its callbacks did. */
  lemma InterruptWins(c: Call, callbacks: seq<Block>)
    requires c.blocking && c.interrupt.Some?
    ensures CallRaises(c.(callbacks := callbacks)) == c.interrupt
  {
  }

  /** Of the callbacks of any other call the last one decides: it raises what a call with that callback alone
      does, and nothing if there is none. */
  lemma LastCallbackDecides(c: Call, callbacks: seq<Block>, b: Block)
    requires Interruption(c) == None
    ensures CallRaises(c.(callbacks := callbacks + [b])) == CallRaises(c.(callbacks := [b]))
    ensures CallRaises(c.(callbacks := [])) == None
  {
    var many := c.(callbacks := callbacks + [b]);
    assert many.callbacks[|many.callbacks| - 1] == b;
  }

  /** Call i of a block is not rescued and raises e. */
  predicate Escapes(b: Block, i: nat, e: Exception)
    requires i < |b.calls|
  {
    !b.calls[i].rescued && CallRaises(b.calls[i]) == Some(e)
  }

  /** No call of a block from `from` up to i lets an exception out. */
  predicate NoneEscapes(b: Block, from: nat, i: nat)
    requires i <= |b.calls|
  {
    forall j :: from <= j < i ==> b.calls[j].rescued || CallRaises(b.calls[j]) == None
  }

  /** The first call of a block to let an exception out lets e out, or none does and it ends with e. */
  predicate LetsOut(b: Block, from: nat, e: Exception)
    requires from <= |b.calls|
  {
    || (exists i :: from <= i < |b.calls| && Escapes(b, i, e) && NoneEscapes(b, from, i))
    || (NoneEscapes(b, from, |b.calls|) && b.ending == Raise(e))
  }

  /** That is what a block raises; and it returns v exactly when no call lets anything out and it ends with v. */
  lemma {:induction false} BlockEndsWith(b: Block, from: nat, e: Exception, v: int)
    requires from <= |b.calls|
    ensures BlockEnding(b, from) == Raise(e) <==> LetsOut(b, from, e)
    ensures BlockEnding(b, from) == Return(v) <==> NoneEscapes(b, from, |b.calls|) && b.ending == Return(v)
    decreases |b.calls| - from
  {
    if from < |b.calls| {
      var raised := CallRaises(b.calls[from]);
      if raised.Some? && !b.calls[from].rescued {
        assert raised == Some(e) ==> Escapes(b, from, e) && NoneEscapes(b, from, from);
      } else {
        BlockEndsWith(b, from + 1, e, v);
        forall i | from < i <= |b.calls| ensures NoneEscapes(b, from, i) <==> NoneEscapes(b, from + 1, i) {
        }
      }
    }
  }

  /** So a call with one callback, not interrupted, raises e exactly when that block does. */
  lemma {:induction false} OneCallbackRaises(c: Call, b: Block, e: Exception)
    requires Interruption(c) == None
    ensures CallRaises(c.(callbacks := [b])) == Some(e) <==> LetsOut(b, 0, e)
  {
    BlockEndsWith(b, 0, e, 0);
    assert c.(callbacks := [b]).callbacks == [b];
  }

  // ---------------------------------------------------------------- how the frames do it

  class Frame {
    var td: ThreadData?
    var prev: Frame?
    var exc: Option<Exception>

    constructor ()
      ensures td == null && prev == null && exc == None
    {
      td, prev, exc := null, null, None;
    }
  }

  class ThreadData {
    var frame: Frame?

    constructor ()
      ensures frame == null
    {
      frame := null;
    }
  }

  class Thread {
    /** Made when the first frame is pushed. */
    var td: ThreadData?

    function Current(): Frame?
      reads this, td
    {
      if td == null then null else td.frame
    }

    method Push(frame: Frame)
      modifies `td, td, frame
      ensures td != null && (old(td) == null ==> fresh(td)) && (old(td) != null ==> td == old(td))
      ensures td.frame == frame && frame.td == td && frame.prev == old(Current()) && frame.exc == None
    {
      frame.exc := None;
      if td == null {
        td := new ThreadData();
      }
      frame.td := td;
      frame.prev := td.frame;
      td.frame := frame;
    }

    method Pop(frame: Frame)
      requires frame.td != null
      modifies frame.td
      ensures frame.td.frame == frame.prev
    {
      frame.td.frame := frame.prev;
    }

    /** rbffi_CallFunction: whatever happens inside, the frame stack is afterwards what it was, no frame that
        was on it has changed, and the call raises what it should. */
    method CallFunction(c: Call) returns (raised: Option<Exception>)
      modifies `td, td
      ensures Current() == old(Current()) && SameData(old(td), td)
      ensures old(td) == null ==> td == null || fresh(td)
      ensures raised == CallRaises(c)
      decreases c, 1
    {
      var frame := new Frame();
      Push(frame);
      if c.blocking {
        RunNative(c, frame);
        if c.interrupt.Some? {
          frame.exc := c.interrupt;
        }
      } else {
        RunNative(c, frame);
      }
      Pop(frame);
      raised := frame.exc;
    }

    /** The native function itself: its callbacks, one after the other, under this call's frame. */
    method RunNative(c: Call, frame: Frame)
      requires td != null && td.frame == frame && frame.td == td && frame.exc == None
      modifies `td, td, frame
      ensures td == old(td) && td.frame == frame && frame.td == td && frame.prev == old(frame.prev)
      ensures frame.exc == LeftBehind(c.callbacks, |c.callbacks|)
      decreases c, 0
    {
      for i := 0 to |c.callbacks|
        invariant td == old(td) && td.frame == frame && frame.td == td && frame.prev == old(frame.prev)
        invariant frame.exc == LeftBehind(c.callbacks, i)
      {
        var retval := InvokeCallback(c.callbacks[i]);
      }
    }

    /** callback_invoke: the current frame forgets the exception of any earlier callback and keeps this
        one's; the native caller gets zero in place of a value. Without a frame the exception is lost. */
    method InvokeCallback(b: Block) returns (retval: int)
      modifies `td, td, Current()
      ensures Current() == old(Current()) && SameData(old(td), td)
      ensures old(td) == null ==> td == null || fresh(td)
      ensures var f := Current();
              f != null ==> f.td == old(f.td) && f.prev == old(f.prev) && f.exc == Caught(BlockEnding(b, 0))
      ensures retval == match BlockEnding(b, 0) case Return(v) => v case Raise(_) => 0
      decreases b, 2
    {
      var frame := Current();
      if frame != null {
        frame.exc := None;
      }
      var ending := RunBlock(b);
      match ending
      case Return(v) =>
        retval := v;
      case Raise(e) =>
        retval := 0;
        if frame != null {
          frame.exc := Some(e);
        }
    }

    method RunBlock(b: Block) returns (ending: Ending)
      modifies `td, td
      ensures Current() == old(Current()) && SameData(old(td), td)
      ensures old(td) == null ==> td == null || fresh(td)
      ensures ending == BlockEnding(b, 0)
      decreases b, 1
    {
      for i := 0 to |b.calls|
        invariant Current() == old(Current()) && SameData(old(td), td)
        invariant old(td) == null ==> td == null || fresh(td)
        invariant BlockEnding(b, i) == BlockEnding(b, 0)
      {
        var raised := CallFunction(b.calls[i]);
        if raised.Some? && !b.calls[i].rescued {
          return Raise(raised.value);
        }
      }
      ending := b.ending;
    }
  }

  /** A thread's data, once made, stays. */
  predicate SameData(before: ThreadData?, now: ThreadData?) {
    before != null ==> now == before
  }

  function Caught(e: Ending): Option<Exception> {
    match e case Raise(exc) => Some(exc) case Return(_) => None
  }

  /** What the first n callbacks of a call leave in its frame. */
  function LeftBehind(callbacks: seq<Block>, n: nat): Option<Exception>
    requires n <= |callbacks|
  {
    if n == 0 then None else Caught(BlockEnding(callbacks[n - 1], 0))
  }
}
