/**
 link_list.c: a circular doubly linked list with a sentinel. Heap nodes refine a sequence. A node
 that has been freed is marked so; the methods reach a node's fields only through accessors that
 demand a live node.
 */
module LinkList {
  import opened Prelude

  const TRAVEL_BREAK := 1

  datatype Mode = Forward | Backward

  // ---------------------------------------------------------------- what the operations mean

  /** Index of the first element from i on that cmp finds equal to key, or |s|. */
  function MatchFrom<K, T>(s: seq<T>, key: K, cmp: (K, T) -> int, i: nat): (k: nat)
    requires i <= |s|
    ensures i <= k <= |s|
    ensures k < |s| ==> cmp(key, s[k]) == 0
    decreases |s| - i
  {
    if i == |s| || cmp(key, s[i]) == 0 then i else MatchFrom(s, key, cmp, i + 1)
  }

  function FirstMatch<K, T>(s: seq<T>, key: K, cmp: (K, T) -> int): (k: nat)
    ensures k <= |s|
    ensures k < |s| ==> cmp(key, s[k]) == 0
  {
    MatchFrom(s, key, cmp, 0)
  }

  /** always_match of queue.c and stack.c. */
  function AlwaysMatch<T>(key: (), data: T): int { 0 }

  lemma FirstMatchesAlways<T>(s: seq<T>)
    ensures FirstMatch(s, (), AlwaysMatch<T>) == 0
    ensures s != [] ==> RemoveAt(s, 0) == s[1..]
  {
  }

  /** Nothing before the first match matches. */
  lemma {:induction false} NothingMatchesBefore<K, T>(s: seq<T>, key: K, cmp: (K, T) -> int, i: nat, j: nat)
    requires i <= |s| && i <= j < MatchFrom(s, key, cmp, i)
    ensures cmp(key, s[j]) != 0
    decreases j - i
  {
    if i < j { NothingMatchesBefore(s, key, cmp, i + 1, j); }
  }

  function RemoveAt<T>(s: seq<T>, k: nat): seq<T>
    requires k < |s|
  {
    s[..k] + s[k + 1..]
  }

  function Filter<T>(s: seq<T>, keep: T -> bool): seq<T> {
    if s == [] then [] else (if keep(s[0]) then [s[0]] else []) + Filter(s[1..], keep)
  }

  /** Where a traversal by op that has reached i stops: after the first BREAK from there on. */
  function StopFrom<T>(s: seq<T>, op: T -> int, i: nat): (n: nat)
    requires i <= |s|
    ensures i <= n <= |s|
    decreases |s| - i
  {
    if i == |s| then i
    else if op(s[i]) == TRAVEL_BREAK then i + 1
    else StopFrom(s, op, i + 1)
  }

  /** How many elements a traversal by op visits. */
  function Visited<T>(s: seq<T>, op: T -> int): (n: nat)
    ensures n <= |s|
  {
    StopFrom(s, op, 0)
  }

  /** The traversal visits up to and including the first BREAK, and everything if there is none. */
  lemma {:induction false} StopsAtFirstBreak<T>(s: seq<T>, op: T -> int, i: nat)
    requires i <= |s|
    ensures var n := StopFrom(s, op, i);
            && (n < |s| ==> n > i && op(s[n - 1]) == 1)
            && forall j :: i <= j < n - 1 ==> op(s[j]) != 1
    decreases |s| - i
  {
    if i < |s| && op(s[i]) != TRAVEL_BREAK { StopsAtFirstBreak(s, op, i + 1); }
  }

  /** The elements among the first n of s that cmp tells apart from key. */
  function Survivors<K, T>(s: seq<T>, key: K, cmp: (K, T) -> int, n: nat): seq<T>
    requires n <= |s|
  {
    if n == 0 then []
    else Survivors(s, key, cmp, n - 1) + (if cmp(key, s[n - 1]) != 0 then [s[n - 1]] else [])
  }

  /** The elements among the first n of s that cmp finds equal to key. */
  function Victims<K, T>(s: seq<T>, key: K, cmp: (K, T) -> int, n: nat): seq<T>
    requires n <= |s|
  {
    if n == 0 then []
    else Victims(s, key, cmp, n - 1) + (if cmp(key, s[n - 1]) == 0 then [s[n - 1]] else [])
  }

  /** The elements among the first n of s that the predicate, if there is one, accepts. */
  function Accepted<T>(s: seq<T>, check: Option<T -> int>, n: nat): seq<T>
    requires n <= |s|
  {
    if n == 0 then []
    else Accepted(s, check, n - 1) + (if check.None? || check.value(s[n - 1]) != 0 then [s[n - 1]] else [])
  }

  lemma OneMore<K, T>(s: seq<T>, key: K, cmp: (K, T) -> int, i: nat)
    requires i < |s|
    ensures var kept, gone := Survivors(s, key, cmp, i), Victims(s, key, cmp, i);
            if cmp(key, s[i]) == 0 then
              Survivors(s, key, cmp, i + 1) == kept && Victims(s, key, cmp, i + 1) == gone + [s[i]]
            else
              Survivors(s, key, cmp, i + 1) == kept + [s[i]] && Victims(s, key, cmp, i + 1) == gone
  {
  }

  lemma OneMoreAccepted<T>(s: seq<T>, check: Option<T -> int>, i: nat)
    requires i < |s|
    ensures var kept := Accepted(s, check, i);
            Accepted(s, check, i + 1) == if check.None? || check.value(s[i]) != 0 then kept + [s[i]] else kept
  {
  }

  lemma {:induction false} TravelDeleteIsFilter<K, T>(s: seq<T>, key: K, cmp: (K, T) -> int, n: nat)
    requires n <= |s|
    ensures Survivors(s, key, cmp, n) == Filter(s[..n], x => cmp(key, x) != 0)
    ensures Victims(s, key, cmp, n) == Filter(s[..n], x => cmp(key, x) == 0)
  {
    if n > 0 {
      TravelDeleteIsFilter(s, key, cmp, n - 1);
      FilterStep(s, n - 1, x => cmp(key, x) != 0);
      FilterStep(s, n - 1, x => cmp(key, x) == 0);
    }
  }

  lemma {:induction false} CheckIsFilter<T>(s: seq<T>, check: Option<T -> int>, n: nat)
    requires n <= |s|
    ensures Accepted(s, check, n) == Filter(s[..n], x => check.None? || check.value(x) != 0)
    ensures check.None? ==> Accepted(s, check, n) == s[..n]
  {
    if n > 0 {
      CheckIsFilter(s, check, n - 1);
      FilterStep(s, n - 1, x => check.None? || check.value(x) != 0);
      assert s[..n] == s[..n - 1] + [s[n - 1]];
    }
  }

  /** One more element through a filter. */
  lemma FilterStep<T>(s: seq<T>, i: nat, keep: T -> bool)
    requires i < |s|
    ensures Filter(s[..i + 1], keep) == Filter(s[..i], keep) + (if keep(s[i]) then [s[i]] else [])
  {
    assert s[..i + 1] == s[..i] + [s[i]];
    FilterAppend(s[..i], [s[i]], keep);
  }

  /** A walk over `all` that has kept `kept` of the first i elements and not touched the rest. */
  ghost predicate Walked<T>(now: seq<T>, kept: seq<T>, all: seq<T>, i: nat)
    requires i <= |all|
  {
    |kept| <= |now| && now[..|kept|] == kept && now[|kept|..] == all[i..]
  }

  lemma WalkStep<T>(now: seq<T>, kept: seq<T>, all: seq<T>, i: nat)
    requires i < |all| && Walked(now, kept, all, i)
    ensures |kept| < |now| && now[|kept|] == all[i]
    ensures Walked(RemoveAt(now, |kept|), kept, all, i + 1)
    ensures Walked(now, kept + [all[i]], all, i + 1)
  {
    assert all[i] == all[i..][0] == now[|kept|];
    assert all[i..][1..] == all[i + 1..];
  }

  lemma WalkEnds<T>(now: seq<T>, kept: seq<T>, all: seq<T>, i: nat)
    requires i <= |all| && Walked(now, kept, all, i)
    ensures now == kept + all[i..] && (i == |all| ==> now == kept)
  {
    assert now == now[..|kept|] + now[|kept|..];
  }

  lemma {:induction false} FilterAppend<T>(a: seq<T>, b: seq<T>, keep: T -> bool)
    ensures Filter(a + b, keep) == Filter(a, keep) + Filter(b, keep)
  {
    if a == [] {
      assert a + b == b;
    } else {
      assert (a + b)[1..] == a[1..] + b;
      FilterAppend(a[1..], b, keep);
      var h := if keep(a[0]) then [a[0]] else [];
      assert h + (Filter(a[1..], keep) + Filter(b, keep)) == (h + Filter(a[1..], keep)) + Filter(b, keep);
    }
  }

  /** Filter keeps exactly the accepted elements, with their multiplicity. */
  lemma {:induction false} FilterIsExact<T>(s: seq<T>, keep: T -> bool, x: T)
    ensures multiset(Filter(s, keep))[x] == if keep(x) then multiset(s)[x] else 0
  {
    if s != [] {
      assert s == [s[0]] + s[1..];
      FilterIsExact(s[1..], keep, x);
    }
  }

  // ---------------------------------------------------------------- the list

  /** struct llist_node_st; only the sentinel has no data. `live` is false once freed. */
  class Node<T> {
    var prev: Node<T>
    var next: Node<T>
    var data: Option<T>
    ghost var live: bool

    constructor Sentinel()
      ensures prev == this && next == this && data == None && live
    {
      prev, next, data, live := this, this, None, true;
    }

    constructor Item(value: T, prev: Node<T>, next: Node<T>)
      ensures this.prev == prev && this.next == next && data == Some(value) && live
    {
      this.prev, this.next, data, live := prev, next, Some(value), true;
    }

    method GetPrev() returns (p: Node<T>)
      requires live
      ensures p == prev
    {
      p := prev;
    }

    method GetNext() returns (n: Node<T>)
      requires live
      ensures n == next
    {
      n := next;
    }

    method GetData() returns (d: Option<T>)
      requires live
      ensures d == data
    {
      d := data;
    }

    method SetPrev(p: Node<T>)
      requires live
      modifies this`prev
      ensures prev == p
    {
      prev := p;
    }

    method SetNext(n: Node<T>)
      requires live
      modifies this`next
      ensures next == n
    {
      next := n;
    }

    method SetData(value: T)
      requires live
      modifies this`data
      ensures data == Some(value)
    {
      data := Some(value);
    }
  }

  /** free(n): allowed once only. */
  ghost method Free<T>(n: Node<T>)
    requires n.live
    modifies n`live
    ensures !n.live
  {
    n.live := false;
  }

  ghost predicate NoDup<T>(s: seq<T>) {
    forall i, j :: 0 <= i < j < |s| ==> s[i] != s[j]
  }

  function InsertAt<T>(s: seq<T>, k: nat, x: T): seq<T>
    requires k <= |s|
  {
    s[..k] + [x] + s[k..]
  }

  lemma RemoveAtIndices<T>(s: seq<T>, k: nat)
    requires k < |s|
    ensures |RemoveAt(s, k)| == |s| - 1
    ensures forall i {:trigger RemoveAt(s, k)[i]} :: 0 <= i < |s| - 1 ==> RemoveAt(s, k)[i] == (if i < k then s[i] else s[i + 1])
  {
  }

  lemma InsertAtIndices<T>(s: seq<T>, k: nat, x: T)
    requires k <= |s|
    ensures |InsertAt(s, k, x)| == |s| + 1
    ensures forall i {:trigger InsertAt(s, k, x)[i]} :: 0 <= i <= |s| ==>
              InsertAt(s, k, x)[i] == (if i < k then s[i] else if i == k then x else s[i - 1])
  {
  }

  /** The node at index k, or the sentinel past the end. */
  ghost function NodeAt<T>(head: Node<T>, nodes: seq<Node<T>>, k: nat): Node<T> {
    if k < |nodes| then nodes[k] else head
  }

  /** The node before index k, or the sentinel before the start. */
  ghost function NodeBefore<T>(head: Node<T>, nodes: seq<Node<T>>, k: nat): Node<T> {
    if 0 < k <= |nodes| then nodes[k - 1] else head
  }

  /** Starting from the sentinel, `next` and `prev` run through the nodes in order and back round. */
  ghost predicate Circle<T>(head: Node<T>, nodes: seq<Node<T>>)
    reads head, nodes
  {
    && head.next == NodeAt(head, nodes, 0) && head.prev == NodeBefore(head, nodes, |nodes|)
    && (forall i {:trigger nodes[i].next} :: 0 <= i < |nodes| ==> nodes[i].next == NodeAt(head, nodes, i + 1))
    && (forall i {:trigger nodes[i].prev} :: 0 <= i < |nodes| ==> nodes[i].prev == NodeBefore(head, nodes, i))
  }

  /** Every link of the circle is in place, except that node k has been bypassed. */
  ghost predicate Bypassed<T>(head: Node<T>, was: seq<Node<T>>, k: nat)
    requires k < |was|
    reads head, was
  {
    && (forall i {:trigger was[i].next} :: 0 <= i < |was| && i != k && i + 1 != k ==>
          was[i].next == NodeAt(head, was, i + 1))
    && (if k > 0 then was[k - 1].next == NodeAt(head, was, k + 1) && head.next == was[0]
        else head.next == NodeAt(head, was, 1))
    && (forall i {:trigger was[i].prev} :: 0 <= i < |was| && i != k && i != k + 1 ==>
          was[i].prev == NodeBefore(head, was, i))
    && (if k + 1 < |was| then was[k + 1].prev == NodeBefore(head, was, k) && head.prev == was[|was| - 1]
        else head.prev == NodeBefore(head, was, k))
  }

  lemma BypassedNext<T>(head: Node<T>, was: seq<Node<T>>, k: nat, ns: seq<Node<T>>)
    requires k < |was| == |ns| + 1 && Bypassed(head, was, k)
    requires forall i :: 0 <= i < k ==> ns[i] == was[i]
    requires forall i :: k <= i < |ns| ==> ns[i] == was[i + 1]
    ensures head.next == NodeAt(head, ns, 0)
    ensures forall i {:trigger ns[i].next} :: 0 <= i < |ns| ==> ns[i].next == NodeAt(head, ns, i + 1)
  {
  }

  lemma BypassedPrev<T>(head: Node<T>, was: seq<Node<T>>, k: nat, ns: seq<Node<T>>)
    requires k < |was| == |ns| + 1 && Bypassed(head, was, k)
    requires forall i :: 0 <= i < k ==> ns[i] == was[i]
    requires forall i :: k <= i < |ns| ==> ns[i] == was[i + 1]
    ensures head.prev == NodeBefore(head, ns, |ns|)
    ensures forall i {:trigger ns[i].prev} :: 0 <= i < |ns| ==> ns[i].prev == NodeBefore(head, ns, i)
  {
  }

  lemma CircleWithout<T>(head: Node<T>, was: seq<Node<T>>, k: nat)
    requires NoDup(was) && head !in was && k < |was| && Bypassed(head, was, k)
    ensures var ns := RemoveAt(was, k);
            Circle(head, ns) && NoDup(ns) && was[k] !in ns && head !in ns && |ns| == |was| - 1
    ensures forall n :: n in RemoveAt(was, k) ==> n in was
    ensures forall i {:trigger RemoveAt(was, k)[i]} :: 0 <= i < |was| - 1 ==>
              RemoveAt(was, k)[i] == (if i < k then was[i] else was[i + 1])
  {
    RemoveAtIndices(was, k);
    RemoveAtMembers(was, k);
    BypassedNext(head, was, k, RemoveAt(was, k));
    BypassedPrev(head, was, k, RemoveAt(was, k));
  }

  lemma RemoveAtMembers<T>(s: seq<T>, k: nat)
    requires k < |s| && NoDup(s)
    ensures NoDup(RemoveAt(s, k)) && s[k] !in RemoveAt(s, k)
    ensures forall x :: x in RemoveAt(s, k) ==> x in s
  {
    RemoveAtIndices(s, k);
  }

  /** Every link of the circle is in place, and n stands between nodes k - 1 and k. */
  ghost predicate Spliced<T>(head: Node<T>, was: seq<Node<T>>, k: nat, n: Node<T>)
    requires k <= |was|
    reads head, was, n
  {
    && n.prev == NodeBefore(head, was, k) && n.next == NodeAt(head, was, k)
    && (forall i {:trigger was[i].next} :: 0 <= i < |was| && i + 1 != k ==> was[i].next == NodeAt(head, was, i + 1))
    && (if k > 0 then was[k - 1].next == n && head.next == was[0] else head.next == n)
    && (forall i {:trigger was[i].prev} :: 0 <= i < |was| && i != k ==> was[i].prev == NodeBefore(head, was, i))
    && (if k < |was| then was[k].prev == n && head.prev == was[|was| - 1] else head.prev == n)
  }

  lemma CircleWith<T>(head: Node<T>, was: seq<Node<T>>, k: nat, n: Node<T>)
    requires NoDup(was) && head !in was && n !in was && n != head && k <= |was| && Spliced(head, was, k, n)
    ensures var ns := InsertAt(was, k, n); Circle(head, ns) && NoDup(ns) && head !in ns && |ns| == |was| + 1
    ensures forall i {:trigger InsertAt(was, k, n)[i]} :: 0 <= i <= |was| ==>
              InsertAt(was, k, n)[i] == (if i < k then was[i] else if i == k then n else was[i - 1])
  {
    InsertAtIndices(was, k, n);
    SplicedNext(head, was, k, n, InsertAt(was, k, n));
    SplicedPrev(head, was, k, n, InsertAt(was, k, n));
  }

  lemma SplicedNext<T>(head: Node<T>, was: seq<Node<T>>, k: nat, n: Node<T>, ns: seq<Node<T>>)
    requires k <= |was| && |ns| == |was| + 1 && Spliced(head, was, k, n)
    requires ns[k] == n && forall i :: 0 <= i < k ==> ns[i] == was[i]
    requires forall i :: k < i < |ns| ==> ns[i] == was[i - 1]
    ensures head.next == NodeAt(head, ns, 0)
    ensures forall i {:trigger ns[i].next} :: 0 <= i < |ns| ==> ns[i].next == NodeAt(head, ns, i + 1)
  {
  }

  lemma SplicedPrev<T>(head: Node<T>, was: seq<Node<T>>, k: nat, n: Node<T>, ns: seq<Node<T>>)
    requires k <= |was| && |ns| == |was| + 1 && Spliced(head, was, k, n)
    requires ns[k] == n && forall i :: 0 <= i < k ==> ns[i] == was[i]
    requires forall i :: k < i < |ns| ==> ns[i] == was[i - 1]
    ensures head.prev == NodeBefore(head, ns, |ns|)
    ensures forall i {:trigger ns[i].prev} :: 0 <= i < |ns| ==> ns[i].prev == NodeBefore(head, ns, i)
  {
  }

  /** Taking out one of distinct elements takes out no other. */
  lemma RemovedAlone<T>(s: seq<T>, k: nat)
    requires k < |s|
    ensures forall x :: x in s && x != s[k] ==> x in RemoveAt(s, k)
  {
    forall x | x in s && x != s[k] ensures x in RemoveAt(s, k) {
      var j :| 0 <= j < |s| && s[j] == x;
      assert RemoveAt(s, k)[if j < k then j else j - 1] == x;
    }
  }

  /** Every node of start that has left the list has been freed. */
  ghost predicate Gone<T>(repr: set<object>, start: seq<Node<T>>, nodes: seq<Node<T>>)
    reads repr
  {
    forall m :: m in start ==> m in repr && (m in nodes || !m.live)
  }

  method Splice<T>(head: Node<T>, ghost nodes: seq<Node<T>>, ghost k: nat, n: Node<T>)
    requires NoDup(nodes) && head !in nodes && n !in nodes && n != head && k <= |nodes| && Circle(head, nodes)
    requires n.prev == NodeBefore(head, nodes, k) && n.next == NodeAt(head, nodes, k)
    requires n.live && NodeAt(head, nodes, k).live && NodeBefore(head, nodes, k).live
    modifies NodeAt(head, nodes, k)`prev, NodeBefore(head, nodes, k)`next
    ensures Spliced(head, nodes, k, n)
  {
    var after := n.GetNext();
    var before := n.GetPrev();
    after.SetPrev(n);
    before.SetNext(n);
  }

  method Bypass<T>(head: Node<T>, ghost nodes: seq<Node<T>>, ghost k: nat, n: Node<T>)
    requires NoDup(nodes) && head !in nodes && k < |nodes| && n == nodes[k] && Circle(head, nodes)
    requires n.live && NodeAt(head, nodes, k + 1).live && NodeBefore(head, nodes, k).live
    modifies NodeAt(head, nodes, k + 1)`prev, NodeBefore(head, nodes, k)`next
    ensures Bypassed(head, nodes, k)
  {
    var after := n.GetNext();
    var before := n.GetPrev();
    after.SetPrev(before);
    before.SetNext(after);
  }

  class LList<T> {
    const head: Node<T>
    ghost var nodes: seq<Node<T>>   // the nodes, first to last
    ghost var contents: seq<T>      // their payloads
    ghost var repr: set<object>     // this list and every node it ever had

    ghost predicate Valid()
      reads this, repr
    {
      && this in repr && head in repr && (forall i :: 0 <= i < |nodes| ==> nodes[i] in repr)
      && head !in nodes && head.live && |contents| == |nodes|
      && NoDup(nodes)
      && (forall i :: 0 <= i < |nodes| ==> nodes[i].live && nodes[i].data == Some(contents[i]))
      && Circle(head, nodes)
    }

    constructor ()
      ensures Valid() && contents == [] && fresh(repr)
    {
      head := new Node<T>.Sentinel();
      nodes, contents := [], [];
      new;
      repr := {this, head};
    }

    /** Link an unlinked node in at index k. */
    method Link(n: Node<T>, ghost k: nat)
      requires Valid() && k <= |nodes| && n != head && n !in nodes && n.live && n.data.Some?
      requires n.prev == NodeBefore(head, nodes, k) && n.next == NodeAt(head, nodes, k)
      modifies repr, n
      ensures Valid() && repr == old(repr) + {n}
      ensures nodes == InsertAt(old(nodes), k, n)
      ensures contents == InsertAt(old(contents), k, old(n.data).value)
    {
      Splice(head, nodes, k, n);
      CircleWith(head, nodes, k, n);
      InsertAtIndices(contents, k, n.data.value);
      contents := InsertAt(contents, k, n.data.value);
      nodes := InsertAt(nodes, k, n);
      repr := repr + {n};
    }

    method Insert(value: T, mode: Mode) returns (ret: int)
      requires Valid()
      modifies repr
      ensures Valid() && ret == 0
      ensures contents == if mode == Forward then [value] + old(contents) else old(contents) + [value]
      ensures fresh(repr - old(repr)) && old(repr) <= repr
    {
      var newNode: Node<T>;
      if mode == Forward {
        var first := head.GetNext();
        newNode := new Node<T>.Item(value, head, first);
        Link(newNode, 0);
        assert InsertAt(old(contents), 0, value) == [value] + old(contents);
      } else {
        var last := head.GetPrev();
        newNode := new Node<T>.Item(value, last, head);
        Link(newNode, |nodes|);
        assert InsertAt(old(contents), |old(contents)|, value) == old(contents) + [value];
      }
      ret := 0;
    }

    /** Take the node at index k out of the circle. */
    method Unlink(n: Node<T>, ghost k: nat)
      requires Valid() && k < |nodes| && n == nodes[k]
      modifies repr
      ensures Valid() && repr == old(repr)
      ensures nodes == RemoveAt(old(nodes), k) && contents == RemoveAt(old(contents), k)
      ensures n !in nodes && n.live && n.next == old(n.next) && n.data == old(n.data)
      ensures forall m: Node<T> :: m in old(repr) ==> m.live == old(m.live)
    {
      Bypass(head, nodes, k, n);
      CircleWithout(head, nodes, k);
      RemoveAtIndices(contents, k);
      nodes := RemoveAt(nodes, k);
      contents := RemoveAt(contents, k);
    }

    /** The first node that cmp finds equal to key, or the sentinel. */
    method Find<K>(key: K, cmp: (K, T) -> int) returns (cur: Node<T>)
      requires Valid()
      ensures var k := FirstMatch(contents, key, cmp); cur == NodeAt(head, nodes, k)
    {
      cur := head.GetNext();
      ghost var k := 0;
      while cur != head
        invariant k <= |nodes| && cur == NodeAt(head, nodes, k)
        invariant FirstMatch(contents, key, cmp) == MatchFrom(contents, key, cmp, k)
        decreases |nodes| - k
      {
        var data := cur.GetData();
        if cmp(key, data.value) == 0 {
          break;
        }
        cur := cur.GetNext();
        k := k + 1;
      }
    }

    method Delete<K>(key: K, cmp: (K, T) -> int) returns (ret: int, destroyed: seq<T>)
      requires Valid()
      modifies repr
      ensures Valid() && repr == old(repr)
      ensures var k := FirstMatch(old(contents), key, cmp);
              if k == |old(contents)| then ret == -1 && destroyed == [] && nodes == old(nodes) && contents == old(contents)
              else ret == 0 && destroyed == [old(contents)[k]]
                   && nodes == RemoveAt(old(nodes), k) && contents == RemoveAt(old(contents), k)
                   && !old(nodes)[k].live
    {
      var node := Find(key, cmp);
      if node == head {
        return -1, [];
      }
      ghost var k := FirstMatch(contents, key, cmp);
      Unlink(node, k);
      var data := node.GetData();
      destroyed := [data.value];
      Free(node);
      ret := 0;
    }

    method FindValue<K>(key: K, cmp: (K, T) -> int) returns (r: Option<T>)
      requires Valid()
      ensures var k := FirstMatch(contents, key, cmp); r == if k < |contents| then Some(contents[k]) else None
    {
      var node := Find(key, cmp);
      if node == head {
        return None;
      }
      r := node.GetData();
    }

    /** Copy the first match out and remove it. */
    method Fetch<K>(key: K, cmp: (K, T) -> int) returns (ret: int, data: Option<T>)
      requires Valid()
      modifies repr
      ensures Valid() && repr == old(repr)
      ensures var k := FirstMatch(old(contents), key, cmp);
              if k == |old(contents)| then ret == -1 && data == None && nodes == old(nodes) && contents == old(contents)
              else ret == 0 && data == Some(old(contents)[k])
                   && nodes == RemoveAt(old(nodes), k) && contents == RemoveAt(old(contents), k)
                   && !old(nodes)[k].live
    {
      var node := Find(key, cmp);
      if node == head {
        return -1, None;
      }
      data := node.GetData();
      Unlink(node, FirstMatch(contents, key, cmp));
      Free(node);
      ret := 0;
    }

    /** Overwrite the payload of the node at index k, as a caller holding the found pointer does. */
    method SetData(n: Node<T>, ghost k: nat, value: T)
      requires Valid() && k < |nodes| && n == nodes[k]
      modifies repr
      ensures Valid() && repr == old(repr) && nodes == old(nodes) && contents == old(contents)[k := value]
    {
      n.SetData(value);
      contents := contents[k := value];
    }

    method GetNum() returns (n: nat)
      requires Valid()
      ensures n == |contents|
    {
      n := 0;
      var cur := head.GetNext();
      while cur != head
        invariant n <= |nodes| && cur == NodeAt(head, nodes, n)
        decreases |nodes| - n
      {
        cur := cur.GetNext();
        n := n + 1;
      }
    }

    /** Call op on each payload in order until it answers BREAK. */
    method Travel(op: T -> int) returns (seen: seq<T>)
      requires Valid()
      ensures seen == contents[..Visited(contents, op)]
    {
      seen := [];
      var cur := head.GetNext();
      ghost var i := 0;
      while cur != head
        invariant i <= |nodes| && cur == NodeAt(head, nodes, i) && seen == contents[..i]
        invariant Visited(contents, op) == StopFrom(contents, op, i)
        decreases |nodes| - i
      {
        var data := cur.GetData();
        seen := seen + [data.value];
        if op(data.value) == TRAVEL_BREAK {
          return;
        }
        cur := cur.GetNext();
        i := i + 1;
      }
    }

    /**
     A walk over `all` has reached cur after i elements, of which it kept `kept`; the rest is not
     touched, and every node of start that is no longer in the list has been freed.
     */
    ghost predicate Reached(cur: Node<T>, kept: seq<T>, all: seq<T>, i: nat, start: seq<Node<T>>)
      requires i <= |all|
      reads this, repr
    {
      && Valid() && Walked(contents, kept, all, i)
      && cur == NodeAt(head, nodes, |kept|)
      && Gone(repr, start, nodes)
    }

    /** What the walk sees at a node that is not the sentinel. */
    lemma SeesNext(cur: Node<T>, kept: seq<T>, all: seq<T>, i: nat, start: seq<Node<T>>)
      requires i <= |all| && Reached(cur, kept, all, i, start)
      ensures cur != head ==> i < |all| && cur.live && cur.data == Some(all[i])
      ensures cur == head ==> i == |all| && contents == kept
      ensures contents == kept + all[i..]
    {
      WalkEnds(contents, kept, all, i);
      if i < |all| {
        WalkStep(contents, kept, all, i);
      }
    }

    /** One turn of a walk that may remove. The next node is read before cur may be freed. */
    method WalkOne(cur: Node<T>, remove: bool, ghost kept: seq<T>, ghost all: seq<T>, ghost i: nat,
                   ghost start: seq<Node<T>>)
      returns (save: Node<T>)
      requires i < |all| && Reached(cur, kept, all, i, start) && cur != head
      modifies repr
      ensures repr == old(repr)
      ensures Reached(save, if remove then kept else kept + [all[i]], all, i + 1, start)
    {
      WalkStep(contents, kept, all, i);
      save := cur.GetNext();
      if remove {
        ghost var was := nodes;
        Unlink(cur, |kept|);
        Free(cur);
        RemovedAlone(was, |kept|);
      }
    }

    /** One turn of llist_check. */
    method CheckOne(check: Option<T -> int>, cur: Node<T>, ghost all: seq<T>, ghost i: nat,
                    ghost start: seq<Node<T>>)
      returns (save: Node<T>)
      requires i < |all| && Reached(cur, Accepted(all, check, i), all, i, start) && cur != head
      modifies repr
      ensures repr == old(repr) && Reached(save, Accepted(all, check, i + 1), all, i + 1, start)
    {
      ghost var kept := Accepted(all, check, i);
      SeesNext(cur, kept, all, i, start);
      OneMoreAccepted(all, check, i);
      var data := cur.GetData();
      var rejected := check.Some? && check.value(data.value) == 0;
      save := WalkOne(cur, rejected, kept, all, i, start);
    }

    /** Remove every payload the predicate rejects; returns how many payloads there were. */
    method Check(check: Option<T -> int>) returns (size: nat)
      requires Valid()
      modifies repr
      ensures Valid() && repr == old(repr) && size == |old(contents)|
      ensures contents == Filter(old(contents), x => check.None? || check.value(x) != 0)
      ensures Gone(repr, old(nodes), nodes)
    {
      ghost var all, start := contents, nodes;
      size := 0;
      var cur := head.GetNext();
      while cur != head
        invariant repr == old(repr) && size <= |all|
        invariant Reached(cur, Accepted(all, check, size), all, size, start)
        decreases |all| - size
      {
        SeesNext(cur, Accepted(all, check, size), all, size, start);
        cur := CheckOne(check, cur, all, size, start);
        size := size + 1;
      }
      SeesNext(cur, Accepted(all, check, size), all, size, start);
      CheckIsFilter(all, check, size);
      assert all[..size] == all;
    }

    /** One turn of llist_travel_delete: whether op answered BREAK, and what was destroyed. */
    method TravelDeleteOne<K>(op: T -> int, key: K, cmp: (K, T) -> int, cur: Node<T>,
                              ghost all: seq<T>, ghost i: nat, ghost start: seq<Node<T>>)
      returns (flag: bool, gone: seq<T>, save: Node<T>)
      requires i < |all| && Reached(cur, Survivors(all, key, cmp, i), all, i, start) && cur != head
      modifies repr
      ensures repr == old(repr) && Reached(save, Survivors(all, key, cmp, i + 1), all, i + 1, start)
      ensures flag == (op(all[i]) == TRAVEL_BREAK)
      ensures Victims(all, key, cmp, i) + gone == Victims(all, key, cmp, i + 1)
    {
      ghost var kept := Survivors(all, key, cmp, i);
      SeesNext(cur, kept, all, i, start);
      OneMore(all, key, cmp, i);
      var data := cur.GetData();
      flag := op(data.value) == TRAVEL_BREAK;
      var found := cmp(key, data.value) == 0;
      gone := if found then [data.value] else [];
      save := WalkOne(cur, found, kept, all, i, start);
    }

    /** Remove matching payloads while op is being called; op's BREAK ends the walk after its node. */
    method TravelDelete<K>(op: T -> int, key: K, cmp: (K, T) -> int) returns (destroyed: seq<T>)
      requires Valid()
      modifies repr
      ensures Valid() && repr == old(repr)
      ensures var n := Visited(old(contents), op);
              && contents == Survivors(old(contents), key, cmp, n) + old(contents)[n..]
              && destroyed == Victims(old(contents), key, cmp, n)
      ensures Gone(repr, old(nodes), nodes)
    {
      ghost var all, start := contents, nodes;
      ghost var i, n := 0, Visited(contents, op);
      destroyed := [];
      var flag, gone := false, [];
      var cur := head.GetNext();
      while cur != head && !flag
        invariant repr == old(repr) && i <= |all|
        invariant Reached(cur, Survivors(all, key, cmp, i), all, i, start)
        invariant destroyed == Victims(all, key, cmp, i)
        invariant n == if flag then i else StopFrom(all, op, i)
        decreases |all| - i
      {
        SeesNext(cur, Survivors(all, key, cmp, i), all, i, start);
        flag, gone, cur := TravelDeleteOne(op, key, cmp, cur, all, i, start);
        destroyed := destroyed + gone;
        i := i + 1;
      }
      SeesNext(cur, Survivors(all, key, cmp, i), all, i, start);
      assert i == n;
    }

    /** Free every node; the payloads are handed to the destructor in order. */
    method Clear() returns (n: nat, destroyed: seq<T>)
      requires Valid()
      modifies repr
      ensures Valid() && repr == old(repr) && contents == [] && nodes == []
      ensures n == |old(contents)| && destroyed == old(contents)
      ensures forall m :: m in old(nodes) ==> !m.live
    {
      n, destroyed := 0, [];
      ghost var ns, vs := nodes, contents;
      var cur := head.GetNext();
      while cur != head
        invariant n <= |ns| == |vs| && cur == NodeAt(head, ns, n) && destroyed == vs[..n]
        invariant forall j {:trigger ns[j].next} :: 0 <= j < |ns| ==> ns[j].next == NodeAt(head, ns, j + 1)
        invariant forall j {:trigger ns[j].data} :: 0 <= j < |ns| ==> ns[j].data == Some(vs[j])
        invariant forall j {:trigger ns[j].live} :: 0 <= j < |ns| ==> (ns[j].live <==> n <= j)
        decreases |ns| - n
        modifies ns
      {
        assert cur == ns[n] && cur.data == Some(vs[n]);
        var save := cur.GetNext();
        var data := cur.GetData();
        destroyed := destroyed + [data.value];
        Free(cur);
        cur := save;
        n := n + 1;
      }
      head.SetNext(cur);
      head.SetPrev(cur);
      nodes, contents := [], [];
    }
  }
}
