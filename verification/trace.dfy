/**
 Sequences of public calls on one cache, applied in order, and the fact that
 the read-only calls (`Get`, `Len`) never influence the state later calls see,
 in particular never the eviction order.
 */
module Trace {
  import opened LruCache

  /** One call of the Go `Cache` interface. */
  datatype Op<V> = SetOp(key: string, value: V) | GetOp(key: string) | DelOp(key: string) | LenOp | FlushOp
  {
    predicate IsRead() { GetOp? || LenOp? }
  }

  /** The state after one call; `Get` and `Len` return a value and no new state. */
  function Step<V>(c: Lrucache<V>, op: Op<V>): (r: Lrucache<V>)
    requires Valid(c)
    ensures Valid(r) && r.capacity == c.capacity
    ensures op.IsRead() ==> r == c
  {
    match op
    case SetOp(k, v) => Set(c, k, v)
    case GetOp(_) => c
    case DelOp(k) => Del(c, k)
    case LenOp => c
    case FlushOp => Flush(c)
  }

  /** The state after the calls of `ops`, first to last. */
  function Run<V>(c: Lrucache<V>, ops: seq<Op<V>>): (r: Lrucache<V>)
    requires Valid(c)
    ensures Valid(r) && r.capacity == c.capacity
    decreases |ops|
  {
    if ops == [] then c else Step(Run(c, ops[..|ops| - 1]), ops[|ops| - 1])
  }

  /** `ops` with the read-only calls dropped, order kept. */
  function Writes<V>(ops: seq<Op<V>>): (w: seq<Op<V>>)
    ensures |w| <= |ops|
    ensures forall i :: 0 <= i < |w| ==> !w[i].IsRead()
    decreases |ops|
  {
    if ops == [] then []
    else
      var last := ops[|ops| - 1];
      Writes(ops[..|ops| - 1]) + (if last.IsRead() then [] else [last])
  }

  /**
   Reads are invisible: running a trace gives the same state, links and chain
   ends included, as running only its writes. Hence a `Get` never changes
   which entry a later `Set` evicts.
   */
  lemma {:induction false} ReadsDoNotAffectState<V>(c: Lrucache<V>, ops: seq<Op<V>>)
    requires Valid(c)
    ensures Run(c, Writes(ops)) == Run(c, ops)
    decreases |ops|
  {
    if ops != [] {
      var init := ops[..|ops| - 1];
      var last := ops[|ops| - 1];
      ReadsDoNotAffectState(c, init);
      var before := Run(c, init);
      assert Run(c, ops) == Step(before, last);
      if last.IsRead() {
        assert Writes(ops) == Writes(init);
      } else {
        var w := Writes(init) + [last];
        assert Writes(ops) == w;
        assert w[..|w| - 1] == Writes(init);
        assert Run(c, w) == Step(before, last);
      }
    }
  }
}
