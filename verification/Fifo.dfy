/** The behaviour promised by a two-entry register slice: a queue of capacity two.
    An input beat is accepted iff the queue is not full when the clock edge arrives, even if
    a beat leaves on that same edge; the output is valid iff the queue is not empty. */
module Fifo {

  datatype Option<T> = None | Some(value: T) {
    function Seq(): (r: seq<T>)
      ensures |r| <= 1
    {
      if None? then [] else [value]
    }

    /** The value, if `keep` holds. */
    function If(keep: bool): Option<T> {
      if keep then this else None
    }
  }

  datatype Queue<T> = Empty | One(head: T) | Two(head: T, next: T) {
    /** The beats held, oldest first. */
    function Seq(): seq<T> {
      match this
      case Empty => []
      case One(a) => [a]
      case Two(a, b) => [a, b]
    }

    /** tready of the input side. */
    predicate CanAccept() {
      !Two?
    }

    /** tvalid and payload of the output side. */
    function Head(): Option<T> {
      if Empty? then None else Some(head)
    }

    function Tail(): Queue<T> {
      if Two? then One(next) else Empty
    }

    function Push(x: T): Queue<T>
      requires CanAccept()
    {
      if Empty? then One(x) else Two(head, x)
    }

    /** The queue after one clock edge: `arriving` is the beat offered to it, `ready` the consumer. */
    function Step(arriving: Option<T>, ready: bool): Queue<T> {
      var kept := if ready then Tail() else this;
      if CanAccept() && arriving.Some? then kept.Push(arriving.value) else kept
    }
  }

  /** What the two neighbours of a slice drive during one clock cycle. */
  datatype Cycle<T> = Cycle(arriving: Option<T>, ready: bool)

  /** The queue after a whole schedule of cycles. */
  function After<T>(q: Queue<T>, cycles: seq<Cycle<T>>): Queue<T>
    decreases |cycles|
  {
    if cycles == [] then q else After(q.Step(cycles[0].arriving, cycles[0].ready), cycles[1..])
  }

  /** The beats handed over on the input side (valid and ready on the same edge). */
  function Accepted<T>(q: Queue<T>, cycles: seq<Cycle<T>>): seq<T>
    decreases |cycles|
  {
    if cycles == [] then []
    else
      cycles[0].arriving.If(q.CanAccept()).Seq()
      + Accepted(q.Step(cycles[0].arriving, cycles[0].ready), cycles[1..])
  }

  /** The beats handed over on the output side. */
  function Delivered<T>(q: Queue<T>, cycles: seq<Cycle<T>>): seq<T>
    decreases |cycles|
  {
    if cycles == [] then []
    else
      q.Head().If(cycles[0].ready).Seq()
      + Delivered(q.Step(cycles[0].arriving, cycles[0].ready), cycles[1..])
  }

  /** One edge: what was held, then what is taken in, is what is given out, then what is held. */
  lemma StepConserves<T>(q: Queue<T>, arriving: Option<T>, ready: bool)
    ensures q.Seq() + arriving.If(q.CanAccept()).Seq()
         == q.Head().If(ready).Seq() + q.Step(arriving, ready).Seq()
  {
  }

  lemma Chain<T>(q: seq<T>, take: seq<T>, give: seq<T>, q': seq<T>, accepted: seq<T>, delivered: seq<T>, end: seq<T>)
    requires q + take == give + q' && q' + accepted == delivered + end
    ensures q + (take + accepted) == (give + delivered) + end
  {
    assert q + (take + accepted) == (q + take) + accepted == give + (q' + accepted);
  }

  /** Nothing is lost, duplicated or reordered, whatever the two sides do. */
  lemma {:induction false} Conservation<T>(q: Queue<T>, cycles: seq<Cycle<T>>)
    ensures q.Seq() + Accepted(q, cycles) == Delivered(q, cycles) + After(q, cycles).Seq()
    decreases |cycles|
  {
    if cycles == [] {
    } else {
      var c, rest := cycles[0], cycles[1..];
      var q', take, give := q.Step(c.arriving, c.ready), c.arriving.If(q.CanAccept()).Seq(), q.Head().If(c.ready).Seq();
      StepConserves(q, c.arriving, c.ready);
      Conservation(q', rest);
      Chain(q.Seq(), take, give, q'.Seq(), Accepted(q', rest), Delivered(q', rest), After(q', rest).Seq());
    }
  }

  /** A head that is offered and not taken is offered again, unchanged, as long as it is stalled:
      the handshake rule of section 2.2.1 of the AMBA 4 AXI4-Stream Protocol Specification. */
  lemma {:induction false} HeadIsHeld<T>(q: Queue<T>, cycles: seq<Cycle<T>>)
    requires q.Head().Some?
    requires forall i :: 0 <= i < |cycles| ==> !cycles[i].ready
    ensures After(q, cycles).Head() == q.Head()
    ensures Delivered(q, cycles) == []
    decreases |cycles|
  {
    if cycles == [] {
    } else {
      assert !cycles[0].ready;
      HeadIsHeld(q.Step(cycles[0].arriving, cycles[0].ready), cycles[1..]);
    }
  }

  /** One slice: whatever is pulled from it moves from the queue to the stream before it. */
  lemma QueueBooks<T>(before: seq<T>, q: Queue<T>, arriving: Option<T>, pull: bool)
    ensures before + q.Seq() + arriving.If(q.CanAccept()).Seq()
         == before + q.Head().If(pull).Seq() + q.Step(arriving, pull).Seq()
  {
    StepConserves(q, arriving, pull);
    assert before + q.Seq() + arriving.If(q.CanAccept()).Seq() == before + (q.Seq() + arriving.If(q.CanAccept()).Seq());
  }

  lemma Assoc<T>(a: seq<T>, b: seq<T>, c: seq<T>)
    ensures (a + b) + c == a + (b + c)
  {
  }
}
