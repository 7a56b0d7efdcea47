/** What the matcher decides on compiled automata: the language of a
    pattern without quantifiers, and the reading of acceptance as a run. */
module MatcherFacts {
  import opened Wrappers
  import opened Automaton
  import opened Compiler
  import opened CompilerFacts
  import opened Matcher

  /** The state a chain automaton sits in after consuming `i` characters. */
  function Chain(i: nat): nat
  {
    if i == 0 then StartId else i + 1
  }

  /** `input` agrees with `p` from position `i` on, character by character. */
  predicate AgreesFrom(p: string, input: string, i: nat)
    requires i <= |p| && |p| == |input|
  {
    forall k | i <= k < |p| :: TokenMatches(p[k], input[k])
  }

  lemma AgreesStep(p: string, input: string, i: nat)
    requires i < |p| && |p| == |input|
    ensures AgreesFrom(p, input, i) <==> TokenMatches(p[i], input[i]) && AgreesFrom(p, input, i + 1)
  {
  }

  /** The facts about the chain automaton of a quantifier-free pattern that
      the search uses: the successor of each chain state, what it accepts,
      and that no state is a `StarState`. */
  lemma ChainFacts(p: string)
    requires QuantifierFree(p) && Build(p).Success?
    ensures Shape(Build(p).value.nodes)
    ensures forall i | 0 <= i < |p| :: Build(p).value.nodes[Chain(i)].next == [Chain(i + 1)]
    ensures Build(p).value.nodes[Chain(|p|)].next == [TerminalId]
    ensures forall s | 0 <= s < |Build(p).value.nodes| :: !Build(p).value.nodes[s].kind.Star?
  {
    BuildShape(p);
    BuildChain(p);
    BuildKinds(p);
    var nodes := Build(p).value.nodes;
    forall s | 0 <= s < |nodes|
      ensures !nodes[s].kind.Star?
    {
      if s >= 2 {
        assert nodes[(s - 2) + 2].kind == KindFor(p, s - 2);
      }
    }
    forall i | 0 <= i < |p|
      ensures nodes[Chain(i)].next == [Chain(i + 1)]
    {
      if i > 0 {
        assert 2 <= i + 1 < |p| + 1;
      }
    }
  }

  /** Before the end of the pattern, the chain state after `i` characters
      queues only the next chain state, and only if it accepts `input[i]`. */
  lemma ChainChildren(p: string, input: string, i: nat)
    requires QuantifierFree(p) && Build(p).Success?
    requires i < |p| && i < |input|
    ensures Shape(Build(p).value.nodes)
    ensures Children(Build(p).value.nodes, input, Entry(Chain(i), i))
      == if TokenMatches(p[i], input[i]) then [Entry(Chain(i + 1), i + 1)] else []
  {
    ChainFacts(p);
    var nodes := Build(p).value.nodes;
    var t := Chain(i + 1);
    var succs := nodes[Chain(i)].next;
    assert succs == [t] && t == i + 2;
    PushesOne(nodes, succs, t, input[i], i);
    BuildAcceptance(p, i, input[i]);
    assert !IsQuantifier(p[i]) && LastAtom(p, i) == i;
  }

  /** At the end of the pattern, the chain state queues nothing. */
  lemma ChainLastChildren(p: string, input: string)
    requires QuantifierFree(p) && Build(p).Success? && |p| < |input|
    ensures Shape(Build(p).value.nodes)
    ensures Children(Build(p).value.nodes, input, Entry(Chain(|p|), |p|)) == []
  {
    ChainFacts(p);
    var nodes := Build(p).value.nodes;
    PushesOne(nodes, nodes[Chain(|p|)].next, TerminalId, input[|p|], |p|);
    assert !CheckSelf(nodes, TerminalId, input[|p|]);
  }

  /** At the end of the input, the chain state ends here exactly at the end
      of the pattern. */
  lemma ChainEndsHere(p: string, i: nat)
    requires QuantifierFree(p) && Build(p).Success? && i <= |p|
    ensures Shape(Build(p).value.nodes)
    ensures EndsHere(Build(p).value.nodes, Chain(i)) <==> i == |p|
  {
    ChainFacts(p);
    var nodes := Build(p).value.nodes;
    if i < |p| {
      var t := Chain(i + 1);
      assert nodes[Chain(i)].next == [t] && t != TerminalId;
      assert !nodes[t].kind.Star?;
    } else {
      assert TerminalId in nodes[Chain(i)].next;
    }
  }

  /** One step of the chain search: the state after `i` characters
      accepts exactly when `input[i]` agrees with `p[i]` and the next chain
      state accepts. */
  lemma ChainStep(p: string, input: string, i: nat)
    requires QuantifierFree(p) && Build(p).Success?
    requires i < |p| && i < |input|
    ensures Shape(Build(p).value.nodes)
    ensures AcceptsFrom(Build(p).value.nodes, input, Entry(Chain(i), i))
      <==> TokenMatches(p[i], input[i]) && AcceptsFrom(Build(p).value.nodes, input, Entry(Chain(i + 1), i + 1))
  {
    var nodes := Build(p).value.nodes;
    ChainChildren(p, input, i);
    if TokenMatches(p[i], input[i]) {
      AcceptsFromOne(nodes, input, Entry(Chain(i), i), Entry(Chain(i + 1), i + 1));
    } else {
      AcceptsFromNone(nodes, input, Entry(Chain(i), i));
    }
  }

  /** The chain search at the end of the input or past the end of the
      pattern. */
  lemma ChainStop(p: string, input: string, i: nat)
    requires QuantifierFree(p) && Build(p).Success?
    requires i <= |p| && i <= |input| && (i == |input| || i == |p|)
    ensures Shape(Build(p).value.nodes)
    ensures AcceptsFrom(Build(p).value.nodes, input, Entry(Chain(i), i)) <==> i == |p| && i == |input|
  {
    BuildShape(p);
    if i == |input| {
      ChainEndsHere(p, i);
    } else {
      ChainLastChildren(p, input);
      AcceptsFromNone(Build(p).value.nodes, input, Entry(Chain(i), i));
    }
  }

  /** From the chain state reached after `i` characters, the search accepts
      exactly when the input is as long as the pattern and agrees with it on
      the remaining positions. */
  lemma {:induction false} ChainAccepts(p: string, input: string, i: nat)
    requires QuantifierFree(p) && Build(p).Success?
    requires i <= |p| && i <= |input|
    ensures Shape(Build(p).value.nodes)
    ensures AcceptsFrom(Build(p).value.nodes, input, Entry(Chain(i), i))
      <==> |input| == |p| && AgreesFrom(p, input, i)
    decreases |p| - i
  {
    BuildShape(p);
    if i == |input| || i == |p| {
      ChainStop(p, input, i);
    } else {
      ChainStep(p, input, i);
      ChainAccepts(p, input, i + 1);
      if |input| == |p| {
        AgreesStep(p, input, i);
      }
    }
  }

  /** A pattern without `*` or `+` matches exactly the strings of its length
      that agree with it position by position, `.` standing for any
      character. */
  lemma LiteralLanguage(p: string, input: string)
    requires QuantifierFree(p) && Build(p).Success?
    ensures Shape(Build(p).value.nodes)
    ensures Matches(Build(p).value, input)
      <==> |input| == |p| && forall k | 0 <= k < |p| :: TokenMatches(p[k], input[k])
  {
    ChainAccepts(p, input, 0);
  }

  // ---------------------------------------------------------------------
  // Acceptance as a run

  /** A run of the search: each entry is one the previous one pushes, and
      the last one has consumed the whole input next to the terminal. */
  ghost predicate IsRun(nodes: seq<Node>, input: string, path: seq<Entry>)
    requires Shape(nodes)
  {
    && |path| > 0
    && (forall k | 0 <= k < |path| :: InRange(nodes, input, path[k]))
    && (forall k | 0 <= k < |path| - 1 ::
          path[k].pos < |input| && path[k + 1] in Children(nodes, input, path[k]))
    && path[|path| - 1].pos == |input|
    && EndsHere(nodes, path[|path| - 1].state)
  }

  /** An entry accepts only through a run that reaches the end of the input. */
  lemma {:induction false} AcceptingRun(nodes: seq<Node>, input: string, x: Entry) returns (path: seq<Entry>)
    requires Shape(nodes) && InRange(nodes, input, x) && AcceptsFrom(nodes, input, x)
    ensures IsRun(nodes, input, path) && path[0] == x
    decreases |input| - x.pos, Rank(nodes, x.state)
  {
    if x.pos == |input| {
      path := [x];
    } else {
      var y :| y in Children(nodes, input, x) && AcceptsFrom(nodes, input, y);
      var rest := AcceptingRun(nodes, input, y);
      path := [x] + rest;
      RunCons(nodes, input, x, rest);
    }
  }

  lemma RunCons(nodes: seq<Node>, input: string, x: Entry, rest: seq<Entry>)
    requires Shape(nodes) && InRange(nodes, input, x) && x.pos < |input|
    requires IsRun(nodes, input, rest) && rest[0] in Children(nodes, input, x)
    ensures IsRun(nodes, input, [x] + rest)
  {
    var path := [x] + rest;
    assert forall k | 1 <= k < |path| :: path[k] == rest[k - 1];
    assert path[|path| - 1] == rest[|rest| - 1];
    forall k | 0 <= k < |path| - 1
      ensures path[k].pos < |input| && path[k + 1] in Children(nodes, input, path[k])
    {
      if k > 0 {
        assert path[k] == rest[k - 1] && path[k + 1] == rest[k];
      }
    }
  }

  /** Every run accepts from its first entry. */
  lemma {:induction false} RunAccepts(nodes: seq<Node>, input: string, path: seq<Entry>)
    requires Shape(nodes) && IsRun(nodes, input, path)
    ensures AcceptsFrom(nodes, input, path[0])
    decreases |path|
  {
    if |path| > 1 {
      var rest := path[1..];
      assert forall k | 0 <= k < |rest| :: rest[k] == path[k + 1];
      assert IsRun(nodes, input, rest);
      RunAccepts(nodes, input, rest);
      assert path[1] in Children(nodes, input, path[0]);
    }
  }

  /** `check_string` answers True exactly when some run from the start state
      at position 0 consumes the whole input. */
  lemma MatchesIffRun(fsm: Fsm, input: string)
    requires Shape(fsm.nodes)
    ensures Matches(fsm, input)
      <==> exists path :: IsRun(fsm.nodes, input, path) && path[0] == Entry(StartId, 0)
  {
    var start := Entry(StartId, 0);
    if Matches(fsm, input) {
      var path := AcceptingRun(fsm.nodes, input, start);
    }
    if exists path :: IsRun(fsm.nodes, input, path) && path[0] == start {
      var path :| IsRun(fsm.nodes, input, path) && path[0] == start;
      RunAccepts(fsm.nodes, input, path);
    }
  }
}
