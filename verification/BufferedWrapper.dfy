/**
 The buffered translation wrapper of CTranslate2: callers push an example and a promise into two queues, and a
 background loop moves equally many from both and posts them. Steps are what the lock makes atomic.
 */
module BufferedWrapper {
  import Arithmetic
  import Sequences

  datatype Request = Request(example: nat, promise: nat)

  /** `Undefined` is where the loop would divide by a batch size of 0. */
  datatype Phase = Waiting | Holding(stop: bool) | Done | Undefined

  /**
   `handExamples` and `handPromises` were taken from the queues and are about to be posted. The history: requests
   in the order they were accepted, what was posted, and how many requests had been accepted when stop was set.
   */
  datatype State = State(maxBatch: nat, maxBuffer: nat, examples: seq<nat>, promises: seq<nat>, stop: bool,
                         phase: Phase, handExamples: seq<nat>, handPromises: seq<nat>, accepted: seq<Request>,
                         postedExamples: seq<nat>, postedPromises: seq<nat>, stopMark: nat)

  datatype Step = Accept(example: nat, promise: nat) | Stop | Flush | Post

  /** A buffer size of 0 means the batch size. */
  function Start(maxBatch: nat, maxBufferSize: nat): (s: State)
    ensures Inv(s)
  {
    var maxBuffer := if maxBufferSize == 0 then maxBatch else maxBufferSize;
    State(maxBatch, maxBuffer, [], [], false, Waiting, [], [], [], [], [], 0)
  }

  predicate DividesByZero(size: nat, maxBatch: nat, stop: bool) {
    maxBatch == 0 && size > 0 && !stop
  }

  /** How many requests a flush takes: full batches, unless there is less than one or the loop is to end. */
  function FlushSize(size: nat, maxBatch: nat, stop: bool): (n: nat)
    requires !DividesByZero(size, maxBatch, stop)
    ensures n <= size && (stop ==> n == size) && (size > 0 ==> n > 0)
    ensures !stop && size > maxBatch ==> n % maxBatch == 0
  {
    if !stop && size > maxBatch then
      FullBatches(size, maxBatch);
      size - size % maxBatch
    else
      size
  }

  lemma {:induction false} FullBatches(size: nat, maxBatch: nat)
    requires 0 < maxBatch < size
    ensures (size - size % maxBatch) % maxBatch == 0 && size - size % maxBatch > 0
  {
    Arithmetic.ModUnique(size - size % maxBatch, maxBatch, size / maxBatch, 0);
  }

  predicate Enabled(s: State, e: Step) {
    match e
    case Accept(_, _) => true
    case Stop => !s.stop
    case Flush => s.phase == Waiting
    case Post => s.phase.Holding?
  }

  /** Taking the queues' front under the lock; the wait may end by timeout at any time. */
  function Flushed(s: State): State
    requires |s.promises| == |s.examples|
  {
    if s.examples == [] then s.(phase := if s.stop then Done else Waiting)
    else if DividesByZero(|s.examples|, s.maxBatch, s.stop) then s.(phase := Undefined)
    else
      var n := FlushSize(|s.examples|, s.maxBatch, s.stop);
      s.(examples := s.examples[n..], promises := s.promises[n..], handExamples := s.examples[..n],
         handPromises := s.promises[..n],
            phase := Holding(s.stop))
  }

  function Apply(s: State, e: Step): State
    requires Enabled(s, e) && |s.promises| == |s.examples|
  {
    match e
    case Accept(example, promise) =>
      s.(examples := s.examples + [example], promises := s.promises + [promise],
         accepted := s.accepted + [Request(example, promise)])
    case Stop => s.(stop := true, stopMark := |s.accepted|)
    case Flush => Flushed(s)
    case Post =>
      s.(postedExamples := s.postedExamples + s.handExamples, postedPromises := s.postedPromises + s.handPromises,
         handExamples := [], handPromises := [], phase := if s.phase.stop then Done else Waiting)
  }

  // ---------------------------------------------------------------------------------------------
  // The invariant
  // ---------------------------------------------------------------------------------------------

  function Examples(requests: seq<Request>): (r: seq<nat>)
    ensures |r| == |requests|
  {
    seq(|requests|, (i: nat) requires i < |requests| => requests[i].example)
  }

  function Promises(requests: seq<Request>): (r: seq<nat>)
    ensures |r| == |requests|
  {
    seq(|requests|, (i: nat) requires i < |requests| => requests[i].promise)
  }

  /** Everything accepted is, in order, posted, in hand, or buffered; examples and promises stay in step. */
  ghost predicate Inv(s: State) {
    && |s.examples| == |s.promises| && |s.handExamples| == |s.handPromises|
    && |s.postedExamples| == |s.postedPromises|
    && Examples(s.accepted) == s.postedExamples + s.handExamples + s.examples
    && Promises(s.accepted) == s.postedPromises + s.handPromises + s.promises
    && (!s.phase.Holding? ==> s.handExamples == [])
    && (s.phase.Holding? && s.phase.stop ==> s.stop && s.stopMark <= |s.postedExamples| + |s.handExamples|)
    && (s.phase == Undefined ==> s.maxBatch == 0)
    && (s.phase == Done ==> s.stop && s.stopMark <= |s.postedExamples|)
    && (s.stop ==> s.stopMark <= |s.accepted|)
  }

  lemma {:induction false} AcceptKeeps(s: State, e: Step)
    requires Inv(s) && e.Accept?
    ensures Inv(Apply(s, e))
  {
    var t := Apply(s, e);
    assert Examples(t.accepted) == Examples(s.accepted) + [e.example];
    assert Promises(t.accepted) == Promises(s.accepted) + [e.promise];
    Sequences.Associative(s.postedExamples + s.handExamples, s.examples, [e.example]);
    Sequences.Associative(s.postedPromises + s.handPromises, s.promises, [e.promise]);
  }

  lemma {:induction false} FlushKeeps(s: State)
    requires Inv(s) && Enabled(s, Flush)
    ensures Inv(Apply(s, Flush))
  {
  }

  lemma {:induction false} PostKeeps(s: State)
    requires Inv(s) && Enabled(s, Post)
    ensures Inv(Apply(s, Post))
  {
  }

  lemma {:induction false} StepKeeps(s: State, e: Step)
    requires Inv(s) && Enabled(s, e)
    ensures Inv(Apply(s, e))
  {
    match e
    case Accept(_, _) => AcceptKeeps(s, e);
    case Stop =>
    case Flush => FlushKeeps(s);
    case Post => PostKeeps(s);
  }

  // ---------------------------------------------------------------------------------------------
  // Every interleaving
  // ---------------------------------------------------------------------------------------------

  ghost predicate CanRun(s: State, es: seq<Step>)
    requires Inv(s)
    decreases |es|
  {
    es == [] || (Enabled(s, es[0]) && (StepKeeps(s, es[0]); CanRun(Apply(s, es[0]), es[1..])))
  }

  ghost function Run(s: State, es: seq<Step>): (t: State)
    requires Inv(s) && CanRun(s, es)
    ensures Inv(t)
    decreases |es|
  {
    if es == [] then s
    else
      StepKeeps(s, es[0]);
      Run(Apply(s, es[0]), es[1..])
  }

  /**
   In every interleaving the posted examples and promises are those of the first requests, pair by pair and in order.
   */
  lemma {:induction false} PostedInOrder(maxBatch: nat, maxBufferSize: nat, es: seq<Step>)
    requires CanRun(Start(maxBatch, maxBufferSize), es)
    ensures var s := Run(Start(maxBatch, maxBufferSize), es);
            var n := |s.postedExamples|;
            && n <= |s.accepted|
            && s.postedExamples == Examples(s.accepted[..n]) && s.postedPromises == Promises(s.accepted[..n])
  {
    var s := Run(Start(maxBatch, maxBufferSize), es);
    var n := |s.postedExamples|;
    assert Examples(s.accepted)[..n] == s.postedExamples;
    assert Promises(s.accepted)[..n] == s.postedPromises;
    assert Examples(s.accepted[..n]) == Examples(s.accepted)[..n];
    assert Promises(s.accepted[..n]) == Promises(s.accepted)[..n];
  }

  /** When the loop has ended, every request accepted before stop has been posted. */
  lemma {:induction false} AllPostedAtEnd(maxBatch: nat, maxBufferSize: nat, es: seq<Step>)
    requires CanRun(Start(maxBatch, maxBufferSize), es)
    requires Run(Start(maxBatch, maxBufferSize), es).phase == Done
    ensures var s := Run(Start(maxBatch, maxBufferSize), es);
            s.stop && s.stopMark <= |s.postedExamples| && s.handExamples == []
  {
  }

  ghost predicate GoesUndefined(maxBatch: nat, maxBufferSize: nat, es: seq<Step>) {
    CanRun(Start(maxBatch, maxBufferSize), es) && Run(Start(maxBatch, maxBufferSize), es).phase == Undefined
  }

  lemma {:induction false} RunBatch(s: State, es: seq<Step>)
    requires Inv(s) && CanRun(s, es)
    ensures Run(s, es).maxBatch == s.maxBatch
    decreases |es|
  {
    if es != [] {
      StepKeeps(s, es[0]);
      RunBatch(Apply(s, es[0]), es[1..]);
    }
  }

  /** The loop can divide by zero exactly if the wrapper was made with a batch size of 0. */
  lemma {:induction false} DefinedExactlyIf(maxBatch: nat, maxBufferSize: nat)
    ensures (exists es :: GoesUndefined(maxBatch, maxBufferSize, es)) <==> maxBatch == 0
  {
    if maxBatch == 0 {
      var es := [Accept(0, 0), Flush];
      var s0 := Start(0, maxBufferSize);
      var s1 := Apply(s0, Accept(0, 0));
      StepKeeps(s0, Accept(0, 0));
      StepKeeps(s1, Flush);
      assert es[1..] == [Flush] && [Flush][1..] == [];
      assert CanRun(s1, [Flush]) && Run(s1, [Flush]) == Apply(s1, Flush);
      assert GoesUndefined(maxBatch, maxBufferSize, es);
    } else {
      forall es | CanRun(Start(maxBatch, maxBufferSize), es)
        ensures !GoesUndefined(maxBatch, maxBufferSize, es)
      {
        RunBatch(Start(maxBatch, maxBufferSize), es);
      }
    }
  }

  // ---------------------------------------------------------------------------------------------
  // The shared fields
  // ---------------------------------------------------------------------------------------------

  class Buffer {
    var examples: seq<nat>
    var promises: seq<nat>
    var stop: bool
    const maxBatch: nat
    const maxBuffer: nat

    constructor (maxBatch: nat, maxBufferSize: nat)
      ensures Shows(Start(maxBatch, maxBufferSize))
    {
      examples, promises, stop := [], [], false;
      this.maxBatch := maxBatch;
      maxBuffer := if maxBufferSize == 0 then maxBatch else maxBufferSize;
    }

    ghost predicate Shows(s: State)
      reads this
    {
      examples == s.examples && promises == s.promises && stop == s.stop && maxBatch == s.maxBatch
          && maxBuffer == s.maxBuffer
    }

    /** Accepts a request; the loop is notified once the buffer is full. */
    method TranslateAsync(example: nat, promise: nat, ghost s: State) returns (notify: bool)
      requires Shows(s) && Inv(s)
      modifies this`examples, this`promises
      ensures Shows(Apply(s, Accept(example, promise)))
      ensures notify == (|examples| >= maxBuffer)
    {
      promises := promises + [promise];
      examples := examples + [example];
      notify := |examples| >= maxBuffer;
    }

    /** The critical section of the background loop; `defined` is false where it would divide by zero. */
    method TakeFront(ghost s: State) returns (defined: bool, stopped: bool, takenExamples: seq<nat>,
                                              takenPromises: seq<nat>)
      requires Shows(s) && Inv(s) && Enabled(s, Flush)
      modifies this`examples, this`promises
      ensures Shows(Apply(s, Flush)) && stopped == s.stop
      ensures defined <==> Apply(s, Flush).phase != Undefined
      ensures takenExamples == Apply(s, Flush).handExamples && takenPromises == Apply(s, Flush).handPromises
    {
      stopped := stop;
      defined, takenExamples, takenPromises := true, [], [];
      if |examples| == 0 {
        return;
      }
      var flushSize := |examples|;
      if !stopped && flushSize > maxBatch {
        if maxBatch == 0 {
          return false, stopped, [], [];
        }
        flushSize := flushSize - flushSize % maxBatch;
      }
      assert flushSize == FlushSize(|s.examples|, s.maxBatch, s.stop);
      for i := 0 to flushSize
        invariant takenExamples == s.examples[..i] && examples == s.examples[i..]
        invariant takenPromises == s.promises[..i] && promises == s.promises[i..]
      {
        takenExamples := takenExamples + [examples[0]];
        takenPromises := takenPromises + [promises[0]];
        examples := examples[1..];
        promises := promises[1..];
      }
    }
  }
}
