/** queue.c: a FIFO queue on the linked list. */
module Queue {
  import opened Prelude
  import LinkList

  method Enqueue<T>(q: LinkList.LList<T>, data: T) returns (ret: int)
    requires q.Valid()
    modifies q.repr
    ensures q.Valid() && ret == 0 && q.contents == old(q.contents) + [data]
    ensures fresh(q.repr - old(q.repr)) && old(q.repr) <= q.repr
    ensures RunOps(old(q.contents), [Enq(data)]) == (q.contents, [])
  {
    ret := q.Insert(data, LinkList.Backward);
  }

  method Dequeue<T>(q: LinkList.LList<T>) returns (ret: int, data: Option<T>)
    requires q.Valid()
    modifies q.repr
    ensures q.Valid() && q.repr == old(q.repr)
    ensures old(q.contents) == [] ==> ret == -1 && data == None && q.contents == []
    ensures old(q.contents) != [] ==>
              ret == 0 && data == Some(old(q.contents)[0]) && q.contents == old(q.contents)[1..]
    ensures RunOps(old(q.contents), [Deq]) == (q.contents, if data.None? then [] else [data.value])
  {
    LinkList.FirstMatchesAlways(q.contents);
    OneDeq(q.contents);
    ret, data := q.Fetch((), LinkList.AlwaysMatch<T>);
  }

  // ---------------------------------------------------------------- any sequence of operations

  datatype Op<T> = Enq(x: T) | Deq

  /** The queue after ops, and everything dequeued on the way; a failed dequeue yields nothing. */
  function RunOps<T>(q: seq<T>, ops: seq<Op<T>>): (r: (seq<T>, seq<T>))
    decreases |ops|
  {
    if ops == [] then (q, [])
    else match ops[0]
      case Enq(x) => RunOps(q + [x], ops[1..])
      case Deq =>
        if q == [] then RunOps(q, ops[1..])
        else var (q', out) := RunOps(q[1..], ops[1..]); (q', [q[0]] + out)
  }

  lemma OneDeq<T>(q: seq<T>)
    ensures RunOps(q, [Deq]) == if q == [] then ([], []) else (q[1..], [q[0]])
  {
    var ops: seq<Op<T>> := [Deq];
    assert ops[1..] == [];
    if q != [] {
      assert RunOps(q[1..], ops[1..]) == (q[1..], []);
      assert [q[0]] + [] == [q[0]];
    }
  }

  function Enqueued<T>(ops: seq<Op<T>>): seq<T> {
    if ops == [] then [] else (if ops[0].Enq? then [ops[0].x] else []) + Enqueued(ops[1..])
  }

  /** First in, first out, over any run: what went in is what came out followed by what is left. */
  lemma {:induction false} RunIsFifo<T>(q: seq<T>, ops: seq<Op<T>>)
    ensures var (q', out) := RunOps(q, ops); q + Enqueued(ops) == out + q'
    decreases |ops|
  {
    if ops != [] {
      match ops[0]
      case Enq(x) =>
        RunIsFifo(q + [x], ops[1..]);
        assert q + Enqueued(ops) == (q + [x]) + Enqueued(ops[1..]);
      case Deq =>
        if q == [] {
          RunIsFifo(q, ops[1..]);
        } else {
          RunIsFifo(q[1..], ops[1..]);
          assert q + Enqueued(ops) == [q[0]] + (q[1..] + Enqueued(ops[1..]));
        }
    }
  }
}
