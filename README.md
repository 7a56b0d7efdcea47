# laba.py regular-expression automaton, modelled in Dafny

`laba.py` compiles a small regular-expression language into a graph of
states (`RegexFSM.__init__`) and then decides whether an input string matches
by running a worklist over `(state, position)` pairs
(`RegexFSM.check_string`). The pattern language has single characters, `.`
(any character), `*` and `+`. Each state decides on its own whether it
accepts one character (`check_self`).

This project models that code **as written** and proves facts about it.

- **`automaton.dfy`**: the states. The object graph becomes an arena
  `seq<Node>` in which edges are indices.
  - Index 0 is `start_state` and index 1 is `terminal_state`.
  - The state created for pattern character `k` sits at index `k + 2`.
  - A `Star`/`Plus` node records the index of the state it wraps, which is
    always lower than its own, so the delegating `check_self` terminates.
  - `CheckNext` is the search of `State.check_next`.
- **`compiler.dfy`**: the compiler.
  - `Compile` is the imperative loop of `__init__`. Each iteration updates
    the arena value: it appends to or overwrites an edge list, appends to
    `states` and updates `tmp_next_state`. Edges are arena indices, so two
    states that share a successor in the code share it here too.
  - Each loop iteration is the method `ReadChar`, proved equal to one
    step of the fold (`Step`); `Compile` is proved equal to `Build`, the
    fold of `Step` over the pattern.
  - The two `ValueError`s are the `Failure` cases of a `Result`.
- **`compiler_facts.dfy`**: what every compiled automaton looks like. It covers:
  - when compilation fails;
  - the start state's single edge;
  - the terminal state's single incoming edge;
  - the kind and wiring of each quantifier state;
  - what each state accepts;
  - the graph shape the matcher's termination argument needs.
- **`matcher.dfy`**: the matcher.
  - `CheckString` is the FIFO worklist loop of `check_string`.
  - It is proved equal to `Matches`, a recursive search over the same
    entries that does not depend on their order: some entry queued for an
    entry accepts.
  - The loop terminates on every compiled automaton. The measure is the
    total size of the search trees of the queued entries. As in the code,
    there is no visited set.
- **`matcher_facts.dfy`**:
  - the language of quantifier-free patterns;
  - acceptance read as a run that ends at the end of the input.
- **`examples.dfy`**:
  - the automata that `a*4.+hi`, `a*`, `a+` and `ab*c` compile to, with the
    exact language of the first three;
  - the three results of the demonstration block;
  - literal patterns and compile errors.

Behaviour of the code that the model keeps, including where the code does
not do what its own doc comments describe (the model follows the code):

- **Quantifiers overwrite the start state's edge.** `prev_state` is never
  reassigned, so every quantifier overwrites `start_state.next_states[-1]`
  instead of the edge of the real predecessor.
  - The start state therefore leads to the last quantifier
    (`BuildStartEdge`).
  - `ab*c` accepts `bc` and rejects `abc` (`SpliceCases`). Read as "zero or
    more occurrences of the previous state", as the `StarState` doc comment
    puts it (laba.py:118-120), the pattern would do the opposite.
- **`+` needs two characters.** `PlusState` is wired as `plus -> wrapped`
  with a self-loop on the wrapped state. Its own `check_self` consumes a
  character before the wrapped state must consume another, so `a+` rejects
  `a` (`PlusCases`, `PlusLanguage`). The `PlusState` doc comment promises
  "one or more occurrences" (laba.py:141-143), which would accept `a`.
- **No skip step through `+`.** Only a `StarState` successor grants one, so
  a `PlusState` never does.
- **`StartState.check_self` returns True.** Its doc comment says False; the
  model follows the code.
- **No visited set.** The worklist can queue the same `(state, position)`
  pair more than once. The model keeps those duplicates.
- **What `a*4.+hi` matches.** It compiles to an automaton that accepts
  exactly the strings of at least four characters ending in `hi`
  (`DemoLanguage`).

## Model

| member | source | states |
|---|---|---|
| Automaton.Innermost | laba.py:130-137 | Following `checking_state` from a state ends at a state that is not a `*`/`+` state, at an index no higher than the state's own. |
| Automaton.CheckSelf | laba.py:49-160 | A state's `check_self(c)` is the acceptance of the innermost state it delegates to. Start accepts everything, terminal nothing, `.` everything, an ASCII state exactly its symbol. |
| Automaton.CheckNext | laba.py:26-34 | `None` (the `NotImplementedError`) if and only if no successor accepts `c`. Otherwise the result is a successor that accepts `c`, and no earlier successor does. |
| Compiler.NewState | laba.py:223-232 | Succeeds if and only if the token is ASCII; otherwise the error is `UnsupportedToken(token)`. On success the new state is an atom accepting exactly the characters the token stands for. |
| Compiler.Tail | laba.py:180-214 | `tmp_next_state` after `i` characters is the state of an earlier character that is not `+`; it is absent only when every character so far is `+` (a `*` or an atom becomes `tmp_next_state`, a `+` leaves it alone). |
| Compiler.TailLatest | laba.py:180-214 | That character is the latest one that is not `+`: every character after it is a `+`. `tmp_next_state` is absent if and only if every character so far is `+`. |
| Compiler.Scan | laba.py:175-216 | After `i` loop iterations there are `i + 2` states. `states` lists the start state and every new state in order. `tmp_next_state` is `Tail(p, i)`, and it is absent exactly when `i == 0`. |
| Compiler.Build | laba.py:169-221 | A compiled automaton has one state per pattern character plus start and terminal. `states` is the start state followed by the new states, and the terminal state is not listed. |
| Compiler.ReadChar | laba.py:184-217 | One iteration of the loop on one character updates the arena value exactly as one step of the fold `Step` does, raising on a leading quantifier or a non-ASCII token. |
| Compiler.Compile | laba.py:169-222 | The in-place loop of `__init__` produces exactly `Build(p)`, the automaton or the error. |
| Compiler.ScanFailureSticks | laba.py:186-200 | Once the loop has raised, later characters do not change the outcome. |
| CompilerFacts.BuildFailsExactly | laba.py:186-232 | Compilation fails if and only if the pattern starts with `*`/`+` or holds a non-ASCII character. The error is the one for the first such position, and a leading quantifier gives `LeadingQuantifier`. |
| CompilerFacts.LastQuantifier | laba.py:186-207 | The position of the last `*`/`+` among the first `i` characters, or none when there is no quantifier there. |
| CompilerFacts.BuildStartEdge | laba.py:179-221 | The start state has exactly one successor. It is the terminal for the empty pattern, else the latest quantifier's state, else the first atom. |
| CompilerFacts.BuildTerminalOnce | laba.py:176-221 | The terminal state has no successors. It is the target of exactly one edge, from the final `tmp_next_state`, or from the start state when that is absent. |
| CompilerFacts.BuildKinds | laba.py:186-215 | The state of position `k` is a `*` or `+` wrapping the `tmp_next_state` of that moment, a `.` state, or an ASCII state with that character. |
| CompilerFacts.BuildWiring | laba.py:189-204 | A `*` state's edges start with [wrapped, itself]. A `+` state has only the edge [wrapped], and the wrapped state has a self-loop. In both, the wrapped state is the `tmp_next_state` current when the quantifier was read. |
| CompilerFacts.StepGrows | laba.py:183-216 | One iteration leaves every state's kind alone and only appends edges. It touches no state other than the start state, the one `tmp_next_state` names, and the new one. |
| CompilerFacts.LastAtom | laba.py:186-214 | The latest atom position at or before `k`, with only quantifiers after it. |
| CompilerFacts.TailAtom | laba.py:186-214 | The last atom reached from `tmp_next_state` is the last atom before position `k`. |
| CompilerFacts.BuildInnermost | laba.py:130-160 | Delegation from the state of position `k` ends at the state of the last atom at or before `k`. |
| CompilerFacts.BuildAcceptance | laba.py:88-160 | The state of position `k` accepts exactly what the last atom at or before `k` stands for: its character, or anything for `.`. |
| CompilerFacts.AddEdgeKeepsShape | laba.py:191-219 | Appending an edge of the kind the compiler creates keeps the graph shape that bounds the search. |
| CompilerFacts.SetLastEdgeKeepsShape | laba.py:190-202 | Overwriting the start state's last edge keeps the graph shape. |
| CompilerFacts.AddNodeKeepsShape | laba.py:189-209 | Creating a state, whose wrapped state already exists, keeps the graph shape. |
| CompilerFacts.StepKeepsShape | laba.py:183-216 | One loop iteration keeps the graph shape. |
| CompilerFacts.BuildShape | laba.py:169-221 | Every compiled automaton has that shape. Its edges are in range, and wrapped states have lower indices. Only the start state or a later `*`/`+` state points at a `*` state, and a `*` points only at earlier `*`/`+` states. |
| CompilerFacts.BuildChain | laba.py:209-221 | Without quantifiers the automaton is a chain: start, one state per character in order, then the terminal. |
| Matcher.SkipsExactly | laba.py:260-263 | The skip step through a `StarState` queues exactly its successors other than itself, at the same position. |
| Matcher.PushesSound | laba.py:256-263 | Every queued entry either consumed the current character into a successor that accepts it, or was reached by the skip step through a `StarState` successor. |
| Matcher.PushesComplete | laba.py:256-263 | The converse: every successor that accepts the current character is queued one position on, and every successor of a `StarState` successor other than the star itself is queued at the same position. |
| Matcher.Children | laba.py:254-263 | Every entry queued for an entry is within the input and strictly further on: a later position, or the same position and a lower rank. |
| Matcher.FinishedHere | laba.py:244-252 | At the end of the input the answer is True exactly when the terminal state is a successor, or a `StarState` successor has the terminal state as a successor. |
| Matcher.QueueSkips | laba.py:260-263 | The inner loop queues exactly the skip entries of `Skips`. |
| Matcher.QueueSuccessors | laba.py:256-263 | The loop over the successors leaves the old queue followed by exactly the entries `Pushes` describes. |
| Matcher.WorkOfIsQueueWork | laba.py:238-265 | The work under an entry's children equals the work of the same children queued. |
| Matcher.QueueWorkAppend | laba.py:258-263 | The outstanding work of a queue is additive over concatenation. |
| Matcher.PopFinished | laba.py:244-252 | Dropping a finished entry that does not end here loses no accepting entry and reduces the outstanding work. |
| Matcher.PopExpanded | laba.py:242-263 | Replacing the front entry by the entries it queues loses no accepting entry and reduces the outstanding work. |
| Matcher.CheckString | laba.py:234-265 | The FIFO worklist loop returns exactly `Matches(fsm, input)`, and it terminates. Every queued position stays within the input. The automaton is only read. |
| MatcherFacts.ChainFacts | laba.py:209-221 | In the chain of a quantifier-free pattern, every state leads to the next one and the last one leads to the terminal. No state is a `StarState`. |
| MatcherFacts.ChainAccepts | laba.py:244-258 | From the chain state after `i` characters the search accepts exactly when the input has the pattern's length and agrees with it from `i` on. |
| MatcherFacts.LiteralLanguage | laba.py:209-258 | A pattern without `*`/`+` matches exactly the strings of its length that agree with it position by position, `.` standing for any character. |
| MatcherFacts.RunCons | laba.py:256-263 | Putting an entry in front of a run that starts with one of its queued entries gives a run. |
| MatcherFacts.AcceptingRun | laba.py:241-263 | An accepting entry has a run: a chain of queued entries that ends at position `len(input)` next to the terminal state. |
| MatcherFacts.RunAccepts | laba.py:241-263 | Every run accepts from its first entry. |
| MatcherFacts.MatchesIffRun | laba.py:234-265 | `check_string` returns True if and only if some run from the start state consumes the whole input. |
| Examples.CompileDemo | laba.py:270-272 | `a*4.+hi` compiles to the automaton spelled out in `DemoNodes`. |
| Examples.DemoLanguage | laba.py:270-276 | The compiled `a*4.+hi` matches exactly the strings of at least four characters that end in `hi`. |
| Examples.DemoAccepts | laba.py:273-274 | It accepts `aaaaaa4uhi` and `4uhi`. |
| Examples.DemoRejects | laba.py:275-275 | It rejects `meow`. |
| Examples.CompileStar | laba.py:186-221 | `a*` compiles to start → `*` → {`a`, itself, terminal}. |
| Examples.StarLanguage | laba.py:244-263 | The compiled `a*` matches exactly the strings made only of `a`. |
| Examples.StarCases | laba.py:186-251 | `a*` accepts `""` through the star-with-terminal check and rejects `b`. |
| Examples.CompilePlus | laba.py:198-221 | `a+` compiles to start → `+` → `a`, where `a` loops on itself and reaches the terminal. |
| Examples.PlusLanguage | laba.py:198-263 | The compiled `a+` matches exactly the strings of two or more `a`s. |
| Examples.PlusCases | laba.py:198-263 | `a+` rejects `a` and accepts `aa`. |
| Examples.CompileSplice | laba.py:186-216 | `ab*c` compiles with the start state's edge overwritten by the `*`, which leaves the `a` state unreachable. |
| Examples.SpliceAcceptsBc | laba.py:241-263 | The compiled `ab*c` accepts `bc`. |
| Examples.SpliceRejectsAbc | laba.py:241-263 | The compiled `ab*c` rejects `abc`. |
| Examples.SpliceCases | laba.py:186-263 | `ab*c` accepts `bc` and rejects `abc`. |
| Examples.LiteralCases | laba.py:209-258 | `a.c` accepts `abc` and rejects `ac` and `abcd`. |
| Examples.EmptyCases | laba.py:169-258 | The empty pattern accepts `""` and rejects `a`. |
| Examples.ErrorCases | laba.py:186-232 | `*a` and `+` fail with `LeadingQuantifier`, and a pattern holding `é` fails with `UnsupportedToken`. |

## Left out

- The `__main__` block's `print` calls (laba.py:269-276) are I/O. Their three expected results are the lemmas `Examples.DemoAccepts` and `Examples.DemoRejects`.
- The `ABC`/`abstractmethod` machinery is not modelled (laba.py:3, laba.py:11-24). The six state classes form the closed datatype `Kind`.
- Exceptions become results. The two `ValueError`s are `Failure` values of `Result`. The `NotImplementedError` of `check_next` is the `None` of an `Option`.
- Object identity becomes index equality. The tests `terminal_state in next_states` and `s != next_state` compare arena indices.
- `str.isascii()` on one character is modelled as "character code below 128". Unicode semantics beyond that are not modelled.
- After compilation the automaton is a value that `CheckString` only reads. No aliasing between a caller's and the matcher's view of it is modelled.
- Matcher.CheckString: requires `Shape(fsm.nodes)`. Every compiled automaton has that shape (`CompilerFacts.BuildShape`). On an arbitrary hand-built graph the Python loop need not terminate, and the model does not cover such graphs.
- Python's recursion limit is not modelled. `check_self` of a `*`/`+` state calls the wrapped state's `check_self` (laba.py:137, laba.py:160). A pattern such as `a` followed by about a thousand `*` would therefore raise `RecursionError` in `check_string`. `Automaton.CheckSelf` just answers, however deep the nesting.
- Update in place is not modelled as heap mutation. The arena is a `seq<Node>` value that `Compile` and `ReadChar` rebind. States are arena indices, so sharing is kept, but no object aliasing is modelled.
- Automaton.CheckNext: the Python method returns the state object. The model returns its arena index.
