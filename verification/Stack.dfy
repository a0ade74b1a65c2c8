/** stack.c: a LIFO stack on the linked list; the top is the first element. */
module Stack {
  import opened Prelude
  import LinkList

  method Push<T>(st: LinkList.LList<T>, data: T) returns (ret: int)
    requires st.Valid()
    modifies st.repr
    ensures st.Valid() && ret == 0 && st.contents == [data] + old(st.contents)
    ensures fresh(st.repr - old(st.repr)) && old(st.repr) <= st.repr
    ensures RunOps(old(st.contents), [Pushing(data)]) == (st.contents, [])
  {
    ret := st.Insert(data, LinkList.Forward);
  }

  method Pop<T>(st: LinkList.LList<T>) returns (ret: int, data: Option<T>)
    requires st.Valid()
    modifies st.repr
    ensures st.Valid() && st.repr == old(st.repr)
    ensures old(st.contents) == [] ==> ret == -1 && data == None && st.contents == []
    ensures old(st.contents) != [] ==>
              ret == 0 && data == Some(old(st.contents)[0]) && st.contents == old(st.contents)[1..]
    ensures RunOps(old(st.contents), [Popping]) == (st.contents, if data.None? then [] else [data.value])
  {
    LinkList.FirstMatchesAlways(st.contents);
    OnePop(st.contents);
    ret, data := st.Fetch((), LinkList.AlwaysMatch<T>);
  }

  // ---------------------------------------------------------------- last in, first out

  datatype Op<T> = Pushing(x: T) | Popping

  function RunOps<T>(st: seq<T>, ops: seq<Op<T>>): (r: (seq<T>, seq<T>))
    decreases |ops|
  {
    if ops == [] then (st, [])
    else match ops[0]
      case Pushing(x) => RunOps([x] + st, ops[1..])
      case Popping =>
        if st == [] then RunOps(st, ops[1..])
        else var (st', out) := RunOps(st[1..], ops[1..]); (st', [st[0]] + out)
  }

  lemma OnePop<T>(st: seq<T>)
    ensures RunOps(st, [Popping]) == if st == [] then ([], []) else (st[1..], [st[0]])
  {
    var ops: seq<Op<T>> := [Popping];
    assert ops[1..] == [];
    if st != [] {
      assert RunOps(st[1..], ops[1..]) == (st[1..], []);
      assert [st[0]] + [] == [st[0]];
    }
  }

  /** Every push has its pop and no pop reaches below the start. */
  predicate Balanced<T>(ops: seq<Op<T>>, depth: nat) {
    if ops == [] then depth == 0
    else match ops[0]
      case Pushing(_) => Balanced(ops[1..], depth + 1)
      case Popping => depth > 0 && Balanced(ops[1..], depth - 1)
  }

  /** Whatever a balanced run does above a stack, the stack comes back as it was. */
  lemma {:induction false} BalancedRunRestores<T>(above: seq<T>, below: seq<T>, ops: seq<Op<T>>)
    requires Balanced(ops, |above|)
    ensures RunOps(above + below, ops).0 == below
    ensures RunOps(above + below, ops).1 == RunOps(above, ops).1
    decreases |ops|
  {
    if ops == [] {
      assert above + below == below;
    } else {
      match ops[0]
      case Pushing(x) =>
        BalancedRunRestores([x] + above, below, ops[1..]);
        assert [x] + (above + below) == ([x] + above) + below;
      case Popping =>
        BalancedRunRestores(above[1..], below, ops[1..]);
        assert (above + below)[1..] == above[1..] + below;
    }
  }

  function Reverse<T>(s: seq<T>): seq<T> {
    if s == [] then [] else Reverse(s[1..]) + [s[0]]
  }

  function PushAll<T>(xs: seq<T>): seq<Op<T>> {
    if xs == [] then [] else [Pushing(xs[0])] + PushAll(xs[1..])
  }

  lemma {:induction false} PushAllReverses<T>(st: seq<T>, xs: seq<T>)
    ensures RunOps(st, PushAll(xs)) == (Reverse(xs) + st, [])
    decreases |xs|
  {
    if xs == [] {
      assert Reverse(xs) + st == st;
    } else {
      assert PushAll(xs)[1..] == PushAll(xs[1..]);
      PushAllReverses([xs[0]] + st, xs[1..]);
      assert Reverse(xs) + st == Reverse(xs[1..]) + ([xs[0]] + st);
    }
  }

  function PopTimes<T>(n: nat): seq<Op<T>> {
    if n == 0 then [] else [Popping] + PopTimes(n - 1)
  }

  /** Popping as often as there are elements hands them out from the top down. */
  lemma {:induction false} PopAllEmpties<T>(st: seq<T>, n: nat)
    requires n == |st|
    ensures RunOps(st, PopTimes(n)) == ([], st)
  {
    if n > 0 {
      assert PopTimes<T>(n)[1..] == PopTimes(n - 1);
      PopAllEmpties(st[1..], n - 1);
      assert [st[0]] + st[1..] == st;
    }
  }
}
