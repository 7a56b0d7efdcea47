/** What the compiler builds: when it fails, how the start and terminal
    states are wired, what each state accepts and the shape of the graph. */
module CompilerFacts {
  import opened Wrappers
  import opened Automaton
  import opened Compiler

  // ---------------------------------------------------------------------
  // Errors

  /** One loop iteration fails exactly on a quantifier with no
      `tmp_next_state` or on a character outside ASCII. */
  lemma StepOutcome(b: Builder, c: char)
    requires Ready(b)
    ensures Step(b, c).Failure? <==> (b.tail.None? && IsQuantifier(c)) || !IsAscii(c)
    ensures Step(b, c).Failure? ==>
      Step(b, c).error == if IsQuantifier(c) then LeadingQuantifier(c) else UnsupportedToken(c)
  {
  }

  lemma {:induction false} ScanOutcome(p: string, i: nat)
    requires i <= |p|
    ensures Scan(p, i).Success? <==> forall k | 0 <= k < i :: !BadAt(p, k)
    ensures Scan(p, i).Failure? ==>
      exists k | 0 <= k < i :: FirstBad(p, k) && Scan(p, i).error == ErrorAt(p, k)
  {
    if i > 0 {
      ScanOutcome(p, i - 1);
      if Scan(p, i - 1).Success? {
        var b := Scan(p, i - 1).value;
        assert Scan(p, i) == Step(b, p[i - 1]);
        StepOutcome(b, p[i - 1]);
        assert Scan(p, i).Failure? <==> BadAt(p, i - 1);
        if Scan(p, i).Failure? {
          assert FirstBad(p, i - 1);
        }
      } else {
        assert Scan(p, i) == Scan(p, i - 1);
        var k :| 0 <= k < i - 1 && FirstBad(p, k) && Scan(p, i - 1).error == ErrorAt(p, k);
        assert BadAt(p, k);
      }
    }
  }

  /** Compilation fails exactly when the pattern starts with a quantifier or
      holds a non-ASCII character, and the error is the one of the first such
      position. */
  lemma BuildFailsExactly(p: string)
    ensures Build(p).Failure? <==> !ValidPattern(p)
    ensures Build(p).Failure? ==>
      exists k | 0 <= k < |p| :: FirstBad(p, k) && Build(p).error == ErrorAt(p, k)
    ensures |p| > 0 && IsQuantifier(p[0]) ==> Build(p) == Failure(LeadingQuantifier(p[0]))
  {
    ScanOutcome(p, |p|);
    if |p| > 0 && IsQuantifier(p[0]) {
      assert BadAt(p, 0);
    }
  }

  // ---------------------------------------------------------------------
  // The start state

  /** The position of the last quantifier among the first `i` characters. */
  function LastQuantifier(p: string, i: nat): (r: Option<nat>)
    requires i <= |p|
    ensures r.Some? ==>
      r.value < i && IsQuantifier(p[r.value])
      && forall k | r.value < k < i :: !IsQuantifier(p[k])
    ensures r.None? ==> forall k | 0 <= k < i :: !IsQuantifier(p[k])
  {
    if i == 0 then None
    else if IsQuantifier(p[i - 1]) then Some(i - 1)
    else LastQuantifier(p, i - 1)
  }

  /** The start state's successor while the loop is running: the state of
      the latest quantifier, or the first atom when there was none. */
  function HeadAt(p: string, i: nat): nat
    requires i <= |p|
  {
    match LastQuantifier(p, i)
    case Some(k) => k + 2
    case None => 2
  }

  /** The single successor of the start state once compilation is done. */
  function StartTarget(p: string): nat
  {
    if |p| == 0 then TerminalId else HeadAt(p, |p|)
  }

  lemma {:induction false} ScanStart(p: string, i: nat)
    requires i <= |p| && Scan(p, i).Success?
    ensures Scan(p, i).value.nodes[StartId] == Node(Start, if i == 0 then [] else [HeadAt(p, i)])
  {
    if i > 0 {
      ScanStart(p, i - 1);
    }
  }

  /** The start state ends with exactly one successor: the terminal state for
      the empty pattern, else the latest quantifier's state (every quantifier
      overwrites the start state's last edge), else the first atom. */
  lemma BuildStartEdge(p: string)
    requires Build(p).Success?
    ensures Build(p).value.nodes[StartId] == Node(Start, [StartTarget(p)])
  {
    ScanStart(p, |p|);
  }

  // ---------------------------------------------------------------------
  // The terminal state

  /** The terminal state is neither changed nor targeted by a loop
      iteration. */
  lemma StepTerminalFree(b: Builder, c: char)
    requires Ready(b) && Step(b, c).Success?
    requires b.nodes[TerminalId] == Node(Terminal, [])
    requires forall s | 0 <= s < |b.nodes| :: TerminalId !in b.nodes[s].next
    ensures Step(b, c).value.nodes[TerminalId] == Node(Terminal, [])
    ensures forall s | 0 <= s < |Step(b, c).value.nodes| :: TerminalId !in Step(b, c).value.nodes[s].next
  {
    var nodes := Step(b, c).value.nodes;
    forall s | 0 <= s < |nodes|
      ensures TerminalId !in nodes[s].next
    {
      if s < |b.nodes| {
        assert forall u | u in nodes[s].next :: u in b.nodes[s].next || u >= 2;
      }
    }
  }

  lemma {:induction false} ScanTerminalFree(p: string, i: nat)
    requires i <= |p| && Scan(p, i).Success?
    ensures Scan(p, i).value.nodes[TerminalId] == Node(Terminal, [])
    ensures forall s | 0 <= s < |Scan(p, i).value.nodes| ::
      TerminalId !in Scan(p, i).value.nodes[s].next
  {
    if i > 0 {
      ScanTerminalFree(p, i - 1);
      var b := Scan(p, i - 1).value;
      assert Scan(p, i) == Step(b, p[i - 1]);
      StepTerminalFree(b, p[i - 1]);
    }
  }

  /** The terminal state keeps no successors and is the target of exactly
      one edge, from the final `tmp_next_state` (the start state when the
      pattern is empty). */
  lemma BuildTerminalOnce(p: string)
    requires Build(p).Success?
    ensures Build(p).value.nodes[TerminalId] == Node(Terminal, [])
    ensures forall s | 0 <= s < |Build(p).value.nodes| ::
      multiset(Build(p).value.nodes[s].next)[TerminalId]
        == if s == Recipient(Tail(p, |p|)) then 1 else 0
  {
    ScanTerminalFree(p, |p|);
    var b := Scan(p, |p|).value;
    var nodes := Build(p).value.nodes;
    forall s | 0 <= s < |nodes|
      ensures multiset(nodes[s].next)[TerminalId] == if s == Recipient(Tail(p, |p|)) then 1 else 0
    {
      assert TerminalId !in b.nodes[s].next;
      if s == Recipient(b.tail) {
        assert nodes[s].next == b.nodes[s].next + [TerminalId];
      }
    }
  }

  // ---------------------------------------------------------------------
  // Kinds and quantifier wiring

  /** The kind of the state made for position `k`: a quantifier wraps the
      `tmp_next_state` current when it is read. */
  function KindFor(p: string, k: nat): Kind
    requires k < |p|
  {
    if p[k] == '*' then Star(Recipient(Tail(p, k)))
    else if p[k] == '+' then Plus(Recipient(Tail(p, k)))
    else if p[k] == '.' then Dot
    else Ascii(p[k])
  }

  /** One iteration keeps every kind and gives the new state the kind its
      character calls for. */
  lemma StepKinds(b: Builder, c: char)
    requires Ready(b) && Step(b, c).Success?
    ensures |Step(b, c).value.nodes| == |b.nodes| + 1
    ensures forall s | 0 <= s < |b.nodes| :: Step(b, c).value.nodes[s].kind == b.nodes[s].kind
    ensures Step(b, c).value.nodes[|b.nodes|].kind
      == if c == '*' then Star(Recipient(b.tail))
         else if c == '+' then Plus(Recipient(b.tail))
         else if c == '.' then Dot
         else Ascii(c)
  {
  }

  lemma {:induction false} ScanKinds(p: string, i: nat)
    requires i <= |p| && Scan(p, i).Success?
    ensures Scan(p, i).value.nodes[StartId].kind == Start
    ensures forall k | 0 <= k < i :: Scan(p, i).value.nodes[k + 2].kind == KindFor(p, k)
  {
    if i > 0 {
      ScanKinds(p, i - 1);
      var b := Scan(p, i - 1).value;
      StepKinds(b, p[i - 1]);
      var a := Scan(p, i).value;
      assert a == Step(b, p[i - 1]).value;
      assert b.tail == Tail(p, i - 1);
      forall k | 0 <= k < i
        ensures a.nodes[k + 2].kind == KindFor(p, k)
      {
        if k < i - 1 {
          assert a.nodes[k + 2].kind == b.nodes[k + 2].kind;
        }
      }
    }
  }

  /** The state made for pattern position `k` has the kind that character
      calls for. */
  lemma BuildKinds(p: string)
    requires Build(p).Success?
    ensures Build(p).value.nodes[StartId].kind == Start
    ensures forall k | 0 <= k < |p| :: Build(p).value.nodes[k + 2].kind == KindFor(p, k)
  {
    ScanKinds(p, |p|);
  }

  /** How the state of a quantifier at `k` is wired in `nodes`: a `*` starts
      with the edges [wrapped, itself]; a `+` has the single edge [wrapped]
      and has put a self-loop on the wrapped state. */
  predicate QuantifierWired(p: string, nodes: seq<Node>, k: nat)
    requires k < |p| && k + 2 < |nodes|
  {
    var t := Recipient(Tail(p, k));
    && (p[k] == '*' ==>
          |nodes[k + 2].next| >= 2 && nodes[k + 2].next[0] == t && nodes[k + 2].next[1] == k + 2)
    && (p[k] == '+' ==>
          && Tail(p, k).Some?
          && nodes[k + 2].next == [t]
          && t < |nodes| && t in nodes[t].next)
  }

  /** One loop iteration changes the start state, appends edges to
      `Recipient(tail)` and adds a state; every other state is left alone. */
  lemma StepGrows(b: Builder, c: char)
    requires Ready(b) && Step(b, c).Success?
    ensures forall s | 1 <= s < |b.nodes| ::
      && Step(b, c).value.nodes[s].kind == b.nodes[s].kind
      && b.nodes[s].next <= Step(b, c).value.nodes[s].next
    ensures forall s | 1 <= s < |b.nodes| && s != Recipient(b.tail) ::
      Step(b, c).value.nodes[s] == b.nodes[s]
  {
    var n := |b.nodes|;
    var nodes := Step(b, c).value.nodes;
    forall s | 1 <= s < n
      ensures nodes[s].kind == b.nodes[s].kind && b.nodes[s].next <= nodes[s].next
      ensures s != Recipient(b.tail) ==> nodes[s] == b.nodes[s]
    {
      if c == '*' || c == '+' {
        var t := b.tail.value;
        if s != t {
          assert nodes[s] == b.nodes[s];
        }
      }
    }
  }

  /** The edges a quantifier's state starts with. */
  lemma StepWiring(b: Builder, c: char)
    requires Ready(b) && Step(b, c).Success? && IsQuantifier(c)
    ensures b.tail.Some?
    ensures c == '*' ==> Step(b, c).value.nodes[|b.nodes|].next == [b.tail.value, |b.nodes|]
    ensures c == '+' ==>
      && Step(b, c).value.nodes[|b.nodes|].next == [b.tail.value]
      && b.tail.value in Step(b, c).value.nodes[b.tail.value].next
  {
  }

  lemma {:induction false} ScanWiring(p: string, i: nat)
    requires i <= |p| && Scan(p, i).Success?
    ensures forall k | 0 <= k < i :: QuantifierWired(p, Scan(p, i).value.nodes, k)
  {
    if i > 0 {
      ScanWiring(p, i - 1);
      var b := Scan(p, i - 1).value;
      var c := p[i - 1];
      var nodes := Scan(p, i).value.nodes;
      assert nodes == Step(b, c).value.nodes;
      assert b.tail == Tail(p, i - 1);
      StepGrows(b, c);
      if IsQuantifier(c) {
        StepWiring(b, c);
      }
      forall k | 0 <= k < i
        ensures QuantifierWired(p, nodes, k)
      {
        if k < i - 1 {
          assert QuantifierWired(p, b.nodes, k);
          if p[k] == '+' {
            var t := Recipient(Tail(p, k));
            assert b.nodes[t].next <= nodes[t].next;
            assert nodes[k + 2] == b.nodes[k + 2];
          } else if p[k] == '*' {
            assert b.nodes[k + 2].next <= nodes[k + 2].next;
          }
        }
      }
    }
  }

  /** Every quantifier keeps the wiring it was given, with the `tmp_next_state`
      it found when it was read. */
  lemma BuildWiring(p: string)
    requires Build(p).Success?
    ensures forall k | 0 <= k < |p| :: QuantifierWired(p, Build(p).value.nodes, k)
  {
    ScanWiring(p, |p|);
    var b := Scan(p, |p|).value;
    var r := Recipient(b.tail);
    var nodes := Build(p).value.nodes;
    assert nodes == AddEdge(b.nodes, r, TerminalId);
    forall k | 0 <= k < |p|
      ensures QuantifierWired(p, nodes, k)
    {
      assert QuantifierWired(p, b.nodes, k);
      if p[k] == '+' {
        var t := Recipient(Tail(p, k));
        assert b.nodes[t].next <= nodes[t].next;
        assert k + 2 != r;
        assert nodes[k + 2] == b.nodes[k + 2];
      } else if p[k] == '*' {
        assert b.nodes[k + 2].next <= nodes[k + 2].next;
      }
    }
  }

  // ---------------------------------------------------------------------
  // What each state accepts

  /** The latest position at or before `k` that holds an atom: the atom a
      quantifier at `k` ends up repeating. */
  function LastAtom(p: string, k: nat): (r: nat)
    requires k < |p| && !IsQuantifier(p[0])
    ensures r <= k && !IsQuantifier(p[r])
    ensures forall j | r < j <= k :: IsQuantifier(p[j])
  {
    if !IsQuantifier(p[k]) then k else LastAtom(p, k - 1)
  }

  /** `tmp_next_state` after `k >= 1` characters belongs to a position whose
      last atom is the last atom before `k`. */
  lemma {:induction false} TailAtom(p: string, k: nat)
    requires 1 <= k <= |p| && !IsQuantifier(p[0])
    ensures Tail(p, k).Some?
    ensures LastAtom(p, Tail(p, k).value - 2) == LastAtom(p, k - 1)
  {
    if p[k - 1] == '+' {
      TailAtom(p, k - 1);
    }
  }

  /** Delegation through an arena whose kinds are those the pattern calls
      for ends at the last atom. */
  lemma {:induction false} InnermostIsLastAtom(p: string, nodes: seq<Node>, k: nat)
    requires k < |p| && !IsQuantifier(p[0]) && WrapsBelow(nodes) && |nodes| == |p| + 2
    requires forall j | 0 <= j < |p| :: nodes[j + 2].kind == KindFor(p, j)
    ensures Innermost(nodes, k + 2) == LastAtom(p, k) + 2
    decreases k
  {
    assert nodes[k + 2].kind == KindFor(p, k);
    if IsQuantifier(p[k]) {
      TailAtom(p, k);
      var v := Tail(p, k).value;
      assert nodes[k + 2].kind.inner == v;
      InnermostIsLastAtom(p, nodes, v - 2);
    }
  }

  lemma BuildInnermost(p: string, k: nat)
    requires Build(p).Success? && k < |p|
    ensures !IsQuantifier(p[0]) && WrapsBelow(Build(p).value.nodes)
    ensures Innermost(Build(p).value.nodes, k + 2) == LastAtom(p, k) + 2
  {
    BuildFailsExactly(p);
    assert !BadAt(p, 0);
    BuildShape(p);
    BuildKinds(p);
    InnermostIsLastAtom(p, Build(p).value.nodes, k);
  }

  /** The state of pattern position `k` accepts exactly the characters the
      nearest atom at or before `k` stands for: an atom itself, and a `*` or
      `+` the atom it (perhaps through another quantifier) wraps. */
  lemma BuildAcceptance(p: string, k: nat, c: char)
    requires Build(p).Success? && k < |p|
    ensures !IsQuantifier(p[0]) && WrapsBelow(Build(p).value.nodes)
    ensures CheckSelf(Build(p).value.nodes, k + 2, c) <==> TokenMatches(p[LastAtom(p, k)], c)
  {
    BuildInnermost(p, k);
    BuildKinds(p);
    var a := LastAtom(p, k);
    assert Build(p).value.nodes[a + 2].kind == KindFor(p, a);
  }

  // ---------------------------------------------------------------------
  // The shape of the graph

  lemma AddEdgeKeepsShape(nodes: seq<Node>, s: nat, t: nat)
    requires Shape(nodes) && s < |nodes| && s != TerminalId && 1 <= t < |nodes|
    requires nodes[t].kind.Star? ==> s == StartId || (IsWrapper(nodes[s].kind) && t <= s)
    requires nodes[s].kind.Star? && t != s && IsWrapper(nodes[t].kind) ==> t < s
    ensures Shape(AddEdge(nodes, s, t))
  {
    var a := AddEdge(nodes, s, t);
    assert forall x | 0 <= x < |a| && x != s :: a[x] == nodes[x];
    assert forall u | u in a[s].next :: u in nodes[s].next || u == t;
  }

  lemma SetLastEdgeKeepsShape(nodes: seq<Node>, t: nat)
    requires Shape(nodes) && |nodes[StartId].next| > 0 && 1 <= t < |nodes|
    ensures Shape(SetLastEdge(nodes, t))
  {
    var a := SetLastEdge(nodes, t);
    assert forall x | 0 < x < |a| :: a[x] == nodes[x];
  }

  lemma AddNodeKeepsShape(nodes: seq<Node>, k: Kind)
    requires Shape(nodes) && (IsWrapper(k) ==> k.inner < |nodes|)
    ensures Shape(nodes + [Node(k, [])])
  {
    var a := nodes + [Node(k, [])];
    assert forall x | 0 <= x < |nodes| :: a[x] == nodes[x];
  }

  lemma StepKeepsShape(b: Builder, c: char)
    requires Ready(b) && Shape(b.nodes) && Step(b, c).Success?
    ensures Shape(Step(b, c).value.nodes)
  {
    var n := |b.nodes|;
    if c == '*' || c == '+' {
      var t := b.tail.value;
      var k := if c == '*' then Star(t) else Plus(t);
      AddNodeKeepsShape(b.nodes, k);
      var a0 := b.nodes + [Node(k, [])];
      SetLastEdgeKeepsShape(a0, n);
      var a1 := SetLastEdge(a0, n);
      AddEdgeKeepsShape(a1, n, t);
      var a2 := AddEdge(a1, n, t);
      if c == '*' {
        AddEdgeKeepsShape(a2, n, n);
      } else {
        AddEdgeKeepsShape(a2, t, t);
      }
    } else {
      var k := NewState(c).value;
      AddNodeKeepsShape(b.nodes, k);
      AddEdgeKeepsShape(b.nodes + [Node(k, [])], Recipient(b.tail), n);
    }
  }

  lemma {:induction false} ScanShape(p: string, i: nat)
    requires i <= |p| && Scan(p, i).Success?
    ensures Shape(Scan(p, i).value.nodes)
  {
    if i > 0 {
      ScanShape(p, i - 1);
      StepKeepsShape(Scan(p, i - 1).value, p[i - 1]);
    }
  }

  /** Every compiled automaton has the shape the matcher relies on. */
  lemma BuildShape(p: string)
    requires Build(p).Success?
    ensures Shape(Build(p).value.nodes)
  {
    ScanShape(p, |p|);
    var b := Scan(p, |p|).value;
    AddEdgeKeepsShape(b.nodes, Recipient(b.tail), TerminalId);
  }

  // ---------------------------------------------------------------------
  // Patterns without quantifiers

  predicate QuantifierFree(p: string)
  {
    forall k | 0 <= k < |p| :: !IsQuantifier(p[k])
  }

  lemma {:induction false} ScanChain(p: string, i: nat)
    requires i <= |p| && QuantifierFree(p) && Scan(p, i).Success?
    ensures forall s | 2 <= s < i + 2 ::
      Scan(p, i).value.nodes[s].next == if s < i + 1 then [s + 1] else []
  {
    if i > 0 {
      ScanChain(p, i - 1);
    }
  }

  /** Without quantifiers the automaton is a chain: start, then one state per
      character in order, then the terminal state. */
  lemma BuildChain(p: string)
    requires QuantifierFree(p) && Build(p).Success?
    ensures Build(p).value.nodes[StartId].next == [if |p| == 0 then TerminalId else 2]
    ensures forall s | 2 <= s < |p| + 2 ::
      Build(p).value.nodes[s].next == [if s < |p| + 1 then s + 1 else TerminalId]
  {
    ScanChain(p, |p|);
    BuildStartEdge(p);
    if |p| > 0 {
      assert LastQuantifier(p, |p|).None?;
    }
  }
}
