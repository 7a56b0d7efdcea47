/** The automaton: states kept in an arena and addressed by index, each with
    its kind (which decides what single character it accepts) and its ordered
    list of successor indices. */
module Automaton {
  import opened Wrappers

  /** Index of the start state in every arena. */
  const StartId: nat := 0
  /** Index of the termination state in every arena. */
  const TerminalId: nat := 1

  /** The six kinds of state. `Star` and `Plus` carry the index of the state
      they wrap (their `checking_state`). */
  datatype Kind =
    | Start
    | Terminal
    | Dot
    | Ascii(symbol: char)
    | Star(inner: nat)
    | Plus(inner: nat)

  predicate IsWrapper(k: Kind) { k.Star? || k.Plus? }

  /** A state: its kind and its `next_states` list. */
  datatype Node = Node(kind: Kind, next: seq<nat>)

  /** A compiled automaton: the arena (start at 0, terminal at 1) and the
      list `states` of the states the compiler registered, as indices. */
  datatype Fsm = Fsm(nodes: seq<Node>, states: seq<nat>)

  /** Every wrapper wraps a state created before it. */
  predicate WrapsBelow(nodes: seq<Node>)
  {
    forall s | 0 <= s < |nodes| && IsWrapper(nodes[s].kind) :: nodes[s].kind.inner < s
  }

  /** Every edge points at an existing state other than the start state. */
  predicate EdgesInRange(nodes: seq<Node>)
  {
    forall s, j | 0 <= s < |nodes| && 0 <= j < |nodes[s].next| :: 1 <= nodes[s].next[j] < |nodes|
  }

  /** The shape every compiled automaton has:
      - start and terminal at their indices, the terminal without successors;
      - edges in range and wrappers wrapping older states;
      - a `Star` only ever follows the start state, itself, or a wrapper
        created after it (so a skip step never moves to a younger wrapper);
      - the other successors of a `Star` that are wrappers are older than it. */
  ghost predicate Shape(nodes: seq<Node>)
  {
    && |nodes| >= 2
    && nodes[StartId].kind == Start
    && nodes[TerminalId] == Node(Terminal, [])
    && EdgesInRange(nodes)
    && WrapsBelow(nodes)
    && (forall x, j | 0 <= x < |nodes| && 0 <= j < |nodes[x].next| && nodes[nodes[x].next[j]].kind.Star? ::
          x == StartId || (IsWrapper(nodes[x].kind) && nodes[x].next[j] <= x))
    && (forall s, j | 0 <= s < |nodes| && nodes[s].kind.Star? && 0 <= j < |nodes[s].next|
                      && nodes[s].next[j] != s && IsWrapper(nodes[nodes[s].next[j]].kind) :: nodes[s].next[j] < s)
  }

  /** What a state that is not a wrapper accepts on its own. */
  predicate AtomAccepts(k: Kind, c: char)
  {
    match k
    case Start => true
    case Terminal => false
    case Dot => true
    case Ascii(sym) => c == sym
    case Star(_) => false
    case Plus(_) => false
  }

  /** The state found by following `checking_state` links down from `i`. */
  function Innermost(nodes: seq<Node>, i: nat): (r: nat)
    requires WrapsBelow(nodes) && i < |nodes|
    ensures r <= i && !IsWrapper(nodes[r].kind)
    ensures !IsWrapper(nodes[i].kind) ==> r == i
    decreases i
  {
    if IsWrapper(nodes[i].kind) then Innermost(nodes, nodes[i].kind.inner) else i
  }

  /** `check_self` of every State class: a wrapper delegates to the state it
      wraps, so every state accepts exactly what its innermost state accepts. */
  function CheckSelf(nodes: seq<Node>, i: nat, c: char): (r: bool)
    requires WrapsBelow(nodes) && i < |nodes|
    ensures r == AtomAccepts(nodes[Innermost(nodes, i)].kind, c)
    decreases i
  {
    match nodes[i].kind
    case Start => true
    case Terminal => false
    case Dot => true
    case Ascii(sym) => c == sym
    case Star(w) => CheckSelf(nodes, w, c)
    case Plus(w) => CheckSelf(nodes, w, c)
  }

  /** `State.check_next`: the first successor, in list order, that accepts `c`;
      `None` where the original raises "rejected string". */
  method CheckNext(nodes: seq<Node>, s: nat, c: char) returns (r: Option<nat>)
    requires WrapsBelow(nodes) && EdgesInRange(nodes) && s < |nodes|
    ensures r.None? <==> forall j | 0 <= j < |nodes[s].next| :: !CheckSelf(nodes, nodes[s].next[j], c)
    ensures r.Some? ==>
      exists j | 0 <= j < |nodes[s].next| ::
        && nodes[s].next[j] == r.value
        && CheckSelf(nodes, r.value, c)
        && forall j' | 0 <= j' < j :: !CheckSelf(nodes, nodes[s].next[j'], c)
  {
    var succ := nodes[s].next;
    var j := 0;
    while j < |succ|
      invariant 0 <= j <= |succ|
      invariant forall j' | 0 <= j' < j :: !CheckSelf(nodes, succ[j'], c)
    {
      if CheckSelf(nodes, succ[j], c) {
        return Some(succ[j]);
      }
      j := j + 1;
    }
    return None;
  }
}
