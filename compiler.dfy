/** The pattern compiler (`RegexFSM.__init__` and `__init_next_state`): a
    single left-to-right pass that creates one state per pattern character,
    wires the edges and finally hangs the terminal state on the tail
    of the chain. */
module Compiler {
  import opened Wrappers
  import opened Automaton

  /** The two `ValueError`s compilation can raise. */
  datatype CompileError =
    | LeadingQuantifier(quantifier: char)  // "* cannot be the first character", same for +
    | UnsupportedToken(token: char)        // "Unsupported token: ..."

  predicate IsQuantifier(c: char) { c == '*' || c == '+' }

  /** `str.isascii()` on a one-character string. */
  predicate IsAscii(c: char) { c as int < 128 }

  /** What a pattern character that is not a quantifier stands for. */
  predicate TokenMatches(token: char, c: char) { token == '.' || token == c }

  /** Position `k` of the pattern stops compilation: a quantifier with no
      state before it, or a character outside ASCII. */
  predicate BadAt(p: string, k: nat)
    requires k < |p|
  {
    (k == 0 && IsQuantifier(p[0])) || !IsAscii(p[k])
  }

  /** `k` is the first position at which compilation stops. */
  predicate FirstBad(p: string, k: nat)
    requires k < |p|
  {
    BadAt(p, k) && forall j | 0 <= j < k :: !BadAt(p, j)
  }

  /** The error raised at a bad position. */
  function ErrorAt(p: string, k: nat): CompileError
    requires k < |p|
  {
    if IsQuantifier(p[k]) then LeadingQuantifier(p[k]) else UnsupportedToken(p[k])
  }

  predicate ValidPattern(p: string)
  {
    forall k | 0 <= k < |p| :: !BadAt(p, k)
  }

  /** The compiler's working state: the arena, the `states` list and
      `tmp_next_state` (`prev_state` is always the start state). */
  datatype Builder = Builder(nodes: seq<Node>, states: seq<nat>, tail: Option<nat>)

  /** The state an atom (or the terminal state) is appended to:
      `tmp_next_state` if there is one, otherwise `prev_state`. */
  function Recipient(tail: Option<nat>): nat
  {
    if tail.Some? then tail.value else StartId
  }

  /** `nodes[s].next_states.append(t)`. */
  function AddEdge(nodes: seq<Node>, s: nat, t: nat): seq<Node>
    requires s < |nodes|
  {
    nodes[s := Node(nodes[s].kind, nodes[s].next + [t])]
  }

  /** `prev_state.next_states[-1] = t`, with `prev_state` the start state. */
  function SetLastEdge(nodes: seq<Node>, t: nat): seq<Node>
    requires StartId < |nodes| && |nodes[StartId].next| > 0
  {
    var e := nodes[StartId].next;
    nodes[StartId := Node(nodes[StartId].kind, e[|e| - 1 := t])]
  }

  /** What the builder always satisfies between two characters. */
  predicate Ready(b: Builder)
  {
    && |b.nodes| >= 2
    && (b.tail.Some? ==> 2 <= b.tail.value < |b.nodes| && |b.nodes[StartId].next| > 0)
  }

  /** `__init_next_state`: the state for a character that is not a
      quantifier. The state made for `token` accepts exactly the characters
      `token` stands for. */
  function NewState(token: char): (r: Result<Kind, CompileError>)
    ensures r.Success? <==> IsAscii(token)
    ensures r.Failure? ==> r.error == UnsupportedToken(token)
    ensures r.Success? ==>
      && !IsWrapper(r.value) && r.value != Start && r.value != Terminal
      && forall c :: AtomAccepts(r.value, c) <==> TokenMatches(token, c)
  {
    if token == '.' then Success(Dot)
    else if IsAscii(token) then Success(Ascii(token))
    else Failure(UnsupportedToken(token))
  }

  /** The empty automaton: `start_state`, `terminal_state`, `states = [start]`. */
  function Initial(): Builder
  {
    Builder([Node(Start, []), Node(Terminal, [])], [StartId], None)
  }

  /** One iteration of the compiler's loop on character `c`. */
  function Step(b: Builder, c: char): Result<Builder, CompileError>
    requires Ready(b)
  {
    var n := |b.nodes|;
    if c == '*' then
      if b.tail.None? then Failure(LeadingQuantifier('*'))
      else
        var t := b.tail.value;
        var a := SetLastEdge(b.nodes + [Node(Star(t), [])], n);
        Success(Builder(AddEdge(AddEdge(a, n, t), n, n), b.states + [n], Some(n)))
    else if c == '+' then
      if b.tail.None? then Failure(LeadingQuantifier('+'))
      else
        var t := b.tail.value;
        var a := SetLastEdge(b.nodes + [Node(Plus(t), [])], n);
        Success(Builder(AddEdge(AddEdge(a, n, t), t, t), b.states + [n], b.tail))
    else
      match NewState(c)
      case Failure(e) => Failure(e)
      case Success(k) =>
        Success(Builder(AddEdge(b.nodes + [Node(k, [])], Recipient(b.tail), n), b.states + [n], Some(n)))
  }

  /** `tmp_next_state` after the first `i` characters: the state of the
      latest character that is not a `+` (a `+` leaves it alone). */
  function Tail(p: string, i: nat): (r: Option<nat>)
    requires i <= |p|
    ensures r.Some? ==> 2 <= r.value <= i + 1 && p[r.value - 2] != '+'
    ensures r.None? ==> forall k | 0 <= k < i :: p[k] == '+'
  {
    if i == 0 then None
    else if p[i - 1] == '+' then Tail(p, i - 1)
    else Some(i + 1)
  }

  /** `Tail` is the latest character that is not a `+`: every character
      after it is a `+`, and there is none exactly when all of them are. */
  lemma {:induction false} TailLatest(p: string, i: nat)
    requires i <= |p|
    ensures Tail(p, i).Some? ==> forall k | Tail(p, i).value - 2 < k < i :: p[k] == '+'
    ensures Tail(p, i).None? <==> forall k | 0 <= k < i :: p[k] == '+'
  {
    if i > 0 && p[i - 1] == '+' {
      TailLatest(p, i - 1);
    }
  }

  /** `self.states` after `i` characters: the start state, then the state of
      every character in order. */
  function Registered(i: nat): seq<nat>
  {
    [StartId] + seq(i, k => k + 2)
  }

  /** The compiler's state after its loop has run over the first `i`
      characters, or the error it raised on the way. */
  function Scan(p: string, i: nat): (r: Result<Builder, CompileError>)
    requires i <= |p|
    ensures r.Success? ==>
      && Ready(r.value)
      && |r.value.nodes| == i + 2
      && r.value.states == Registered(i)
      && r.value.tail == Tail(p, i)
      && (r.value.tail.None? <==> i == 0)
  {
    if i == 0 then Success(Initial())
    else
      match Scan(p, i - 1)
      case Failure(e) => Failure(e)
      case Success(b) => Step(b, p[i - 1])
  }

  /** After the loop: `tmp_next_state.next_states.append(terminal)`, or the
      start state's when the pattern is empty. */
  function Finish(b: Builder): Fsm
    requires Ready(b)
  {
    Fsm(AddEdge(b.nodes, Recipient(b.tail), TerminalId), b.states)
  }

  /** `RegexFSM(p)`: the compiled automaton or the error raised. */
  function Build(p: string): (r: Result<Fsm, CompileError>)
    ensures r.Success? ==>
      && |r.value.nodes| == |p| + 2
      && r.value.states == Registered(|p|)
      && TerminalId !in r.value.states
  {
    match Scan(p, |p|)
    case Failure(e) => Failure(e)
    case Success(b) => Success(Finish(b))
  }

  /** One iteration of the loop of `RegexFSM.__init__` on character `c`:
      create the state, rewire the edges of the arena value, register the
      state and move `tmp_next_state`; or raise. */
  method ReadChar(nodes0: seq<Node>, states0: seq<nat>, tail0: Option<nat>, c: char)
    returns (r: Result<Builder, CompileError>)
    requires Ready(Builder(nodes0, states0, tail0))
    ensures r == Step(Builder(nodes0, states0, tail0), c)
  {
    var nodes, states, tail := nodes0, states0, tail0;
    var n := |nodes|;
    if c == '*' {
      if tail.None? {
        return Failure(LeadingQuantifier('*'));
      }
      var t := tail.value;
      nodes := nodes + [Node(Star(t), [])];
      nodes := SetLastEdge(nodes, n);
      nodes := AddEdge(nodes, n, t);
      nodes := AddEdge(nodes, n, n);
      tail := Some(n);
      states := states + [n];
    } else if c == '+' {
      if tail.None? {
        return Failure(LeadingQuantifier('+'));
      }
      var t := tail.value;
      nodes := nodes + [Node(Plus(t), [])];
      nodes := SetLastEdge(nodes, n);
      nodes := AddEdge(nodes, n, t);
      nodes := AddEdge(nodes, t, t);
      states := states + [n];
    } else {
      var made := NewState(c);
      if made.Failure? {
        return Failure(made.error);
      }
      nodes := nodes + [Node(made.value, [])];
      nodes := AddEdge(nodes, Recipient(tail), n);
      tail := Some(n);
      states := states + [n];
    }
    return Success(Builder(nodes, states, tail));
  }

  /** `RegexFSM.__init__`: the compiler's loop, updating the arena value one character at a time. */
  method Compile(p: string) returns (r: Result<Fsm, CompileError>)
    ensures r == Build(p)
  {
    var nodes := [Node(Start, []), Node(Terminal, [])];
    var states: seq<nat> := [StartId];
    var tail: Option<nat> := None;
    var i := 0;
    while i < |p|
      invariant 0 <= i <= |p|
      invariant Scan(p, i) == Success(Builder(nodes, states, tail))
    {
      var next := ReadChar(nodes, states, tail, p[i]);
      assert Scan(p, i + 1) == next;
      if next.Failure? {
        ScanFailureSticks(p, i + 1, |p|);
        return Failure(next.error);
      }
      nodes, states, tail := next.value.nodes, next.value.states, next.value.tail;
      i := i + 1;
    }
    assert Build(p) == Success(Finish(Builder(nodes, states, tail)));
    nodes := AddEdge(nodes, Recipient(tail), TerminalId);
    return Success(Fsm(nodes, states));
  }

  /** Once the loop has raised, the outcome no longer changes. */
  lemma {:induction false} ScanFailureSticks(p: string, i: nat, j: nat)
    requires i <= j <= |p| && Scan(p, i).Failure?
    ensures Scan(p, j) == Scan(p, i)
    decreases j
  {
    if j > i {
      ScanFailureSticks(p, i, j - 1);
    }
  }
}
