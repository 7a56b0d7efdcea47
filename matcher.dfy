/** The matcher (`RegexFSM.check_string`): a FIFO worklist of
    (state, position) entries, run to the first entry that has consumed the
    whole input next to the terminal state. */
module Matcher {
  import opened Automaton

  /** A worklist entry `(state, pos)`. */
  datatype Entry = Entry(state: nat, pos: nat)

  ghost predicate InRange(nodes: seq<Node>, input: string, x: Entry)
  {
    x.state < |nodes| && x.pos <= |input|
  }

  /** How far a skip step may still go from a state at a fixed position: the
      start state is highest, a wrapper ranks by its index, other states
      admit no skip step at all. */
  function Rank(nodes: seq<Node>, s: nat): nat
  {
    if s == StartId then |nodes|
    else if s < |nodes| && IsWrapper(nodes[s].kind) then s
    else 0
  }

  /** `y` is strictly further on than `x`: later in the input, or at the same
      position and lower in rank. */
  ghost predicate Below(nodes: seq<Node>, y: Entry, x: Entry)
  {
    y.pos > x.pos || (y.pos == x.pos && Rank(nodes, y.state) < Rank(nodes, x.state))
  }

  /** Entries pushed by the skip step through the `StarState` `s`: each
      successor of `s` other than `s` itself, in order, at position `pos`. */
  function Skips(s: nat, targets: seq<nat>, pos: nat): seq<Entry>
  {
    if targets == [] then []
    else
      var t := targets[|targets| - 1];
      Skips(s, targets[..|targets| - 1], pos) + (if t != s then [Entry(t, pos)] else [])
  }

  /** Entries pushed while looking at the successors `succs` of a state at
      position `pos` with current character `c`: each successor that accepts
      `c`, one position on, and after it the skip entries of a `StarState`. */
  function Pushes(nodes: seq<Node>, succs: seq<nat>, c: char, pos: nat): seq<Entry>
    requires WrapsBelow(nodes)
    requires forall j | 0 <= j < |succs| :: succs[j] < |nodes|
  {
    if succs == [] then []
    else
      var t := succs[|succs| - 1];
      Pushes(nodes, succs[..|succs| - 1], c, pos)
        + (if CheckSelf(nodes, t, c) then [Entry(t, pos + 1)] else [])
        + (if nodes[t].kind.Star? then Skips(t, nodes[t].next, pos) else [])
  }

  /** What a state that is not a `StarState` pushes: itself one position on,
      if it accepts `c`. */
  lemma PushesOne(nodes: seq<Node>, succs: seq<nat>, t: nat, c: char, pos: nat)
    requires WrapsBelow(nodes) && t < |nodes| && !nodes[t].kind.Star? && succs == [t]
    ensures Pushes(nodes, succs, c, pos) == if CheckSelf(nodes, t, c) then [Entry(t, pos + 1)] else []
  {
    assert succs[..0] == [];
  }

  /** The skip step through `s` pushes exactly the successors of `s` other
      than `s`, at the same position. */
  lemma {:induction false} SkipsExactly(s: nat, targets: seq<nat>, pos: nat)
    ensures forall y | y in Skips(s, targets, pos) :: y.pos == pos && y.state in targets && y.state != s
    ensures forall t | t in targets && t != s :: Entry(t, pos) in Skips(s, targets, pos)
    decreases |targets|
  {
    if targets != [] {
      var front := targets[..|targets| - 1];
      SkipsExactly(s, front, pos);
      assert targets == front + [targets[|targets| - 1]];
    }
  }

  /** Every entry pushed either consumes `c` into a successor that accepts
      it, or is a skip through a `StarState` successor. */
  lemma {:induction false} PushesSound(nodes: seq<Node>, succs: seq<nat>, c: char, pos: nat)
    requires WrapsBelow(nodes)
    requires forall j | 0 <= j < |succs| :: succs[j] < |nodes|
    ensures forall y | y in Pushes(nodes, succs, c, pos) ::
      || (y.pos == pos + 1 && y.state in succs && CheckSelf(nodes, y.state, c))
      || (y.pos == pos && exists j | 0 <= j < |succs| && nodes[succs[j]].kind.Star? ::
            y.state in nodes[succs[j]].next && y.state != succs[j])
    decreases |succs|
  {
    if succs != [] {
      var front := succs[..|succs| - 1];
      var t := succs[|succs| - 1];
      PushesSound(nodes, front, c, pos);
      SkipsExactly(t, nodes[t].next, pos);
      forall y | y in Pushes(nodes, succs, c, pos)
        ensures || (y.pos == pos + 1 && y.state in succs && CheckSelf(nodes, y.state, c))
                || (y.pos == pos && exists j | 0 <= j < |succs| && nodes[succs[j]].kind.Star? ::
                      y.state in nodes[succs[j]].next && y.state != succs[j])
      {
        if y in Pushes(nodes, front, c, pos) {
          if y.pos != pos + 1 {
            var j :| 0 <= j < |front| && nodes[front[j]].kind.Star?
                     && y.state in nodes[front[j]].next && y.state != front[j];
            assert succs[j] == front[j];
          }
        } else if y.pos != pos + 1 {
          assert succs[|succs| - 1] == t;
        }
      }
    }
  }

  /** Every successor that accepts `c` is pushed one position on, and every
      successor of a `StarState` successor, other than that state itself, is
      pushed at `pos`. */
  lemma {:induction false} PushesComplete(nodes: seq<Node>, succs: seq<nat>, c: char, pos: nat)
    requires WrapsBelow(nodes)
    requires forall j | 0 <= j < |succs| :: succs[j] < |nodes|
    ensures forall j | 0 <= j < |succs| && CheckSelf(nodes, succs[j], c) ::
      Entry(succs[j], pos + 1) in Pushes(nodes, succs, c, pos)
    ensures forall j, k | 0 <= j < |succs| && nodes[succs[j]].kind.Star? && 0 <= k < |nodes[succs[j]].next|
                          && nodes[succs[j]].next[k] != succs[j] ::
      Entry(nodes[succs[j]].next[k], pos) in Pushes(nodes, succs, c, pos)
    decreases |succs|
  {
    if succs != [] {
      var front := succs[..|succs| - 1];
      var t := succs[|succs| - 1];
      PushesComplete(nodes, front, c, pos);
      SkipsExactly(t, nodes[t].next, pos);
      var own := if CheckSelf(nodes, t, c) then [Entry(t, pos + 1)] else [];
      var skips := if nodes[t].kind.Star? then Skips(t, nodes[t].next, pos) else [];
      assert Pushes(nodes, succs, c, pos) == Pushes(nodes, front, c, pos) + own + skips;
      forall j | 0 <= j < |succs| && CheckSelf(nodes, succs[j], c)
        ensures Entry(succs[j], pos + 1) in Pushes(nodes, succs, c, pos)
      {
        if j < |front| {
          assert front[j] == succs[j];
        } else {
          assert Entry(t, pos + 1) in own;
        }
      }
      forall j, k | 0 <= j < |succs| && nodes[succs[j]].kind.Star? && 0 <= k < |nodes[succs[j]].next|
                    && nodes[succs[j]].next[k] != succs[j]
        ensures Entry(nodes[succs[j]].next[k], pos) in Pushes(nodes, succs, c, pos)
      {
        if j < |front| {
          assert front[j] == succs[j];
        } else {
          assert nodes[t].next[k] in nodes[t].next;
          assert Entry(nodes[t].next[k], pos) in skips;
        }
      }
    }
  }

  /** The entries processing `x` pushes; all are in range and further on than
      `x`, which is why the worklist runs out. */
  ghost function Children(nodes: seq<Node>, input: string, x: Entry): (r: seq<Entry>)
    requires Shape(nodes) && InRange(nodes, input, x) && x.pos < |input|
    ensures forall y | y in r :: InRange(nodes, input, y) && Below(nodes, y, x)
  {
    var r := Pushes(nodes, nodes[x.state].next, input[x.pos], x.pos);
    ChildrenBelow(nodes, input, x, r);
    r
  }

  lemma ChildrenBelow(nodes: seq<Node>, input: string, x: Entry, r: seq<Entry>)
    requires Shape(nodes) && InRange(nodes, input, x) && x.pos < |input|
    requires r == Pushes(nodes, nodes[x.state].next, input[x.pos], x.pos)
    ensures forall y | y in r :: InRange(nodes, input, y) && Below(nodes, y, x)
  {
    var succs := nodes[x.state].next;
    PushesSound(nodes, succs, input[x.pos], x.pos);
    forall y | y in r
      ensures InRange(nodes, input, y) && Below(nodes, y, x)
    {
      if y.pos != x.pos + 1 {
        var j :| 0 <= j < |succs| && nodes[succs[j]].kind.Star?
                 && y.state in nodes[succs[j]].next && y.state != succs[j];
        var t := succs[j];
        assert t in nodes[x.state].next;
        var k :| 0 <= k < |nodes[t].next| && nodes[t].next[k] == y.state;
      } else {
        var j :| 0 <= j < |succs| && succs[j] == y.state;
      }
    }
  }

  /** The check made on an entry that has consumed the whole input: the
      terminal state is a successor, or a successor is a `StarState` that
      has the terminal state among its own successors. */
  ghost predicate EndsHere(nodes: seq<Node>, s: nat)
    requires Shape(nodes) && s < |nodes|
  {
    || TerminalId in nodes[s].next
    || exists j | 0 <= j < |nodes[s].next| ::
         nodes[nodes[s].next[j]].kind.Star? && TerminalId in nodes[nodes[s].next[j]].next
  }

  /** Some entry the search would reach from `x` is accepting: the independent
      recursive reading of the worklist search. */
  ghost predicate AcceptsFrom(nodes: seq<Node>, input: string, x: Entry)
    requires Shape(nodes) && InRange(nodes, input, x)
    decreases |input| - x.pos, Rank(nodes, x.state)
  {
    if x.pos == |input| then EndsHere(nodes, x.state)
    else
      var kids := Children(nodes, input, x);
      exists i | 0 <= i < |kids| :: assert kids[i] in kids; AcceptsFrom(nodes, input, kids[i])
  }

  /** An entry that queues nothing accepts only at the end of the input. */
  lemma AcceptsFromNone(nodes: seq<Node>, input: string, x: Entry)
    requires Shape(nodes) && InRange(nodes, input, x) && x.pos < |input|
    requires Children(nodes, input, x) == []
    ensures !AcceptsFrom(nodes, input, x)
  {
  }

  /** An entry that queues a single entry accepts exactly when that one does. */
  lemma AcceptsFromOne(nodes: seq<Node>, input: string, x: Entry, y: Entry)
    requires Shape(nodes) && InRange(nodes, input, x) && x.pos < |input|
    requires Children(nodes, input, x) == [y]
    ensures InRange(nodes, input, y)
    ensures AcceptsFrom(nodes, input, x) == AcceptsFrom(nodes, input, y)
  {
    assert y in Children(nodes, input, x);
  }

  /** An entry that queues `y` exactly when `b` holds accepts exactly when
      `b` holds and `y` accepts. */
  lemma AcceptsFromIf(nodes: seq<Node>, input: string, x: Entry, b: bool, y: Entry)
    requires Shape(nodes) && InRange(nodes, input, x) && x.pos < |input|
    requires Children(nodes, input, x) == if b then [y] else []
    ensures b ==> InRange(nodes, input, y)
    ensures AcceptsFrom(nodes, input, x) == (b && AcceptsFrom(nodes, input, y))
  {
    if b {
      AcceptsFromOne(nodes, input, x, y);
    } else {
      AcceptsFromNone(nodes, input, x);
    }
  }

  /** An entry that queues two entries accepts exactly when one of them does. */
  lemma AcceptsFromTwo(nodes: seq<Node>, input: string, x: Entry, y: Entry, z: Entry)
    requires Shape(nodes) && InRange(nodes, input, x) && x.pos < |input|
    requires Children(nodes, input, x) == [y, z]
    ensures InRange(nodes, input, y) && InRange(nodes, input, z)
    ensures AcceptsFrom(nodes, input, x) == (AcceptsFrom(nodes, input, y) || AcceptsFrom(nodes, input, z))
  {
    assert y in Children(nodes, input, x) && z in Children(nodes, input, x);
  }

  /** What `check_string(input)` answers. */
  ghost predicate Matches(fsm: Fsm, input: string)
    requires Shape(fsm.nodes)
  {
    AcceptsFrom(fsm.nodes, input, Entry(StartId, 0))
  }

  ghost predicate AnyAccepts(nodes: seq<Node>, input: string, q: seq<Entry>)
    requires Shape(nodes) && forall y | y in q :: InRange(nodes, input, y)
  {
    exists y | y in q :: AcceptsFrom(nodes, input, y)
  }

  /** Some entry of `a + b` accepts exactly when some entry of `a` or some
      entry of `b` does. */
  lemma AnyAcceptsConcat(nodes: seq<Node>, input: string, a: seq<Entry>, b: seq<Entry>)
    requires Shape(nodes) && forall y | y in a + b :: InRange(nodes, input, y)
    ensures forall y | y in a :: InRange(nodes, input, y)
    ensures forall y | y in b :: InRange(nodes, input, y)
    ensures AnyAccepts(nodes, input, a + b) == (AnyAccepts(nodes, input, a) || AnyAccepts(nodes, input, b))
  {
    assert forall y | y in a :: y in a + b;
    assert forall y | y in b :: y in a + b;
  }

  /** Some entry of `[y, z]` accepts exactly when `y` or `z` does. */
  lemma AnyAcceptsPair(nodes: seq<Node>, input: string, y: Entry, z: Entry)
    requires Shape(nodes) && InRange(nodes, input, y) && InRange(nodes, input, z)
    ensures AnyAccepts(nodes, input, [y, z]) == (AcceptsFrom(nodes, input, y) || AcceptsFrom(nodes, input, z))
  {
    assert [y, z][0] == y && [y, z][1] == z;
  }

  /** An entry that queues the entries of `a` and then those of `b` accepts
      exactly when some entry of either does. */
  lemma AcceptsFromConcat(nodes: seq<Node>, input: string, x: Entry, a: seq<Entry>, b: seq<Entry>)
    requires Shape(nodes) && InRange(nodes, input, x) && x.pos < |input|
    requires Children(nodes, input, x) == a + b
    ensures forall y | y in a :: InRange(nodes, input, y)
    ensures forall y | y in b :: InRange(nodes, input, y)
    ensures AcceptsFrom(nodes, input, x) == (AnyAccepts(nodes, input, a) || AnyAccepts(nodes, input, b))
  {
    AnyAcceptsConcat(nodes, input, a, b);
  }

  // ---------------------------------------------------------------------
  // Termination: the total size of the search trees of the queued entries

  /** The number of entries the search processes starting from `x`. */
  ghost function Work(nodes: seq<Node>, input: string, x: Entry): nat
    requires Shape(nodes) && InRange(nodes, input, x)
    decreases |input| - x.pos, Rank(nodes, x.state), 1, 0
  {
    if x.pos == |input| then 1
    else 1 + WorkOf(nodes, input, Children(nodes, input, x), x)
  }

  ghost function WorkOf(nodes: seq<Node>, input: string, q: seq<Entry>, parent: Entry): nat
    requires Shape(nodes) && InRange(nodes, input, parent)
    requires forall y | y in q :: InRange(nodes, input, y) && Below(nodes, y, parent)
    decreases |input| - parent.pos, Rank(nodes, parent.state), 0, |q|
  {
    if q == [] then 0
    else
      var y := q[0];
      assert y in q;
      assert InRange(nodes, input, y) && Below(nodes, y, parent);
      Work(nodes, input, y) + WorkOf(nodes, input, q[1..], parent)
  }

  ghost function QueueWork(nodes: seq<Node>, input: string, q: seq<Entry>): nat
    requires Shape(nodes) && forall y | y in q :: InRange(nodes, input, y)
  {
    if q == [] then 0 else Work(nodes, input, q[0]) + QueueWork(nodes, input, q[1..])
  }

  lemma {:induction false} WorkOfIsQueueWork(nodes: seq<Node>, input: string, q: seq<Entry>, parent: Entry)
    requires Shape(nodes) && InRange(nodes, input, parent)
    requires forall y | y in q :: InRange(nodes, input, y) && Below(nodes, y, parent)
    ensures WorkOf(nodes, input, q, parent) == QueueWork(nodes, input, q)
    decreases |q|
  {
    if q != [] {
      WorkOfIsQueueWork(nodes, input, q[1..], parent);
    }
  }

  lemma {:induction false} QueueWorkAppend(nodes: seq<Node>, input: string, a: seq<Entry>, b: seq<Entry>)
    requires Shape(nodes)
    requires forall y | y in a :: InRange(nodes, input, y)
    requires forall y | y in b :: InRange(nodes, input, y)
    ensures QueueWork(nodes, input, a + b) == QueueWork(nodes, input, a) + QueueWork(nodes, input, b)
    decreases |a|
  {
    if a == [] {
      assert a + b == b;
    } else {
      assert (a + b)[0] == a[0];
      assert (a + b)[1..] == a[1..] + b;
      QueueWorkAppend(nodes, input, a[1..], b);
    }
  }

  /** Popping an entry that is at the end of the input and does not end
      here loses no accepting entry and shrinks the remaining work. */
  lemma PopFinished(nodes: seq<Node>, input: string, q: seq<Entry>)
    requires Shape(nodes) && q != [] && forall y | y in q :: InRange(nodes, input, y)
    requires InRange(nodes, input, q[0]) && q[0].pos == |input| && !EndsHere(nodes, q[0].state)
    ensures AnyAccepts(nodes, input, q[1..]) == AnyAccepts(nodes, input, q)
    ensures QueueWork(nodes, input, q[1..]) < QueueWork(nodes, input, q)
  {
    assert q[0] in q;
    assert forall y | y in q :: y == q[0] || y in q[1..];
  }

  /** Replacing the front entry by the entries it pushes loses no accepting
      entry and shrinks the remaining work. */
  lemma PopExpanded(nodes: seq<Node>, input: string, q: seq<Entry>)
    requires Shape(nodes) && q != [] && forall y | y in q :: InRange(nodes, input, y)
    requires q[0].pos < |input|
    ensures forall y | y in q[1..] + Children(nodes, input, q[0]) :: InRange(nodes, input, y)
    ensures AnyAccepts(nodes, input, q[1..] + Children(nodes, input, q[0])) == AnyAccepts(nodes, input, q)
    ensures QueueWork(nodes, input, q[1..] + Children(nodes, input, q[0])) < QueueWork(nodes, input, q)
  {
    var x := q[0];
    assert x in q;
    var kids := Children(nodes, input, x);
    assert forall y | y in q :: y == x || y in q[1..];
    assert forall y | y in q[1..] :: y in q;
    assert AcceptsFrom(nodes, input, x) == AnyAccepts(nodes, input, kids);
    WorkOfIsQueueWork(nodes, input, kids, x);
    QueueWorkAppend(nodes, input, q[1..], kids);
  }

  // ---------------------------------------------------------------------
  // The matcher

  /** The check of `check_string` on an entry at the end of the input
      (`terminal_state in state.next_states`, then the loop over the
      successors looking for a `StarState` that has the terminal state). */
  method FinishedHere(nodes: seq<Node>, s: nat) returns (b: bool)
    requires Shape(nodes) && s < |nodes|
    ensures b == EndsHere(nodes, s)
  {
    var succ := nodes[s].next;
    if TerminalId in succ {
      return true;
    }
    var j := 0;
    while j < |succ|
      invariant 0 <= j <= |succ|
      invariant forall i | 0 <= i < j ::
        !(nodes[succ[i]].kind.Star? && TerminalId in nodes[succ[i]].next)
    {
      var t := succ[j];
      if nodes[t].kind.Star? && TerminalId in nodes[t].next {
        return true;
      }
      j := j + 1;
    }
    return false;
  }

  /** The inner loop of `check_string` over the successors of a
      `StarState` `t`, queueing each one other than `t` at `pos`. */
  method QueueSkips(t: nat, targets: seq<nat>, pos: nat, queue: seq<Entry>) returns (q: seq<Entry>)
    ensures q == queue + Skips(t, targets, pos)
  {
    q := queue;
    var k := 0;
    while k < |targets|
      invariant 0 <= k <= |targets|
      invariant q == queue + Skips(t, targets[..k], pos)
    {
      assert targets[..k + 1][..k] == targets[..k];
      if targets[k] != t {
        q := q + [Entry(targets[k], pos)];
      }
      k := k + 1;
    }
    assert targets[..|targets|] == targets;
  }

  /** The loop of `check_string` over the successors of an entry at `pos`
      with current character `c`, appending to the queue. */
  method QueueSuccessors(nodes: seq<Node>, succ: seq<nat>, c: char, pos: nat, queue: seq<Entry>)
    returns (q: seq<Entry>)
    requires WrapsBelow(nodes)
    requires forall j | 0 <= j < |succ| :: succ[j] < |nodes|
    ensures q == queue + Pushes(nodes, succ, c, pos)
  {
    q := queue;
    var j := 0;
    while j < |succ|
      invariant 0 <= j <= |succ|
      invariant q == queue + Pushes(nodes, succ[..j], c, pos)
    {
      var t := succ[j];
      assert succ[..j + 1][..j] == succ[..j];
      if CheckSelf(nodes, t, c) {
        q := q + [Entry(t, pos + 1)];
      }
      if nodes[t].kind.Star? {
        q := QueueSkips(t, nodes[t].next, pos, q);
      }
      j := j + 1;
    }
    assert succ[..|succ|] == succ;
  }

  /** `check_string`: pop the front entry; at the end of the input answer
      True if it ends here; otherwise queue every successor that accepts the
      next character and, through each `StarState` successor, every other
      successor of that star at the same position. Answers False when the
      queue runs dry. */
  method CheckString(fsm: Fsm, input: string) returns (accepted: bool)
    requires Shape(fsm.nodes)
    ensures accepted == Matches(fsm, input)
  {
    var nodes := fsm.nodes;
    var queue := [Entry(StartId, 0)];
    var n := |input|;
    while queue != []
      invariant forall y | y in queue :: InRange(nodes, input, y)
      invariant Matches(fsm, input) == AnyAccepts(nodes, input, queue)
      decreases QueueWork(nodes, input, queue)
    {
      ghost var before := queue;
      var x := queue[0];
      assert x in before;
      queue := queue[1..];
      if x.pos == n {
        var done := FinishedHere(nodes, x.state);
        if done {
          assert AcceptsFrom(nodes, input, x);
          return true;
        }
        PopFinished(nodes, input, before);
      } else {
        queue := QueueSuccessors(nodes, nodes[x.state].next, input[x.pos], x.pos, queue);
        PopExpanded(nodes, input, before);
      }
    }
    return false;
  }
}
