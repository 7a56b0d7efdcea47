/** The patterns of the demonstration block and a few small ones, compiled
    and matched. */
module Examples {
  import opened Wrappers
  import opened Automaton
  import opened Compiler
  import opened CompilerFacts
  import opened Matcher
  import opened MatcherFacts

  /** Every character of `s` from `pos` on is `c`. */
  predicate OnlyFrom(s: string, c: char, pos: nat)
    decreases |s| - pos
  {
    pos >= |s| || (s[pos] == c && OnlyFrom(s, c, pos + 1))
  }

  lemma {:induction false} OnlyFromEvery(s: string, c: char, pos: nat)
    requires pos <= |s|
    ensures OnlyFrom(s, c, pos) <==> forall k | pos <= k < |s| :: s[k] == c
    decreases |s| - pos
  {
    if pos < |s| {
      OnlyFromEvery(s, c, pos + 1);
    }
  }

  /** The automaton `a*4.+hi` compiles to: the start state leads to the
      `+` state (the last quantifier overwrote its edge), the `*` state and
      the `a` state it wraps are unreachable, and the `.` state carries the
      self-loop the `+` put on it. */
  const DemoNodes: seq<Node> := [
    Node(Start, [6]),
    Node(Terminal, []),
    Node(Ascii('a'), []),
    Node(Star(2), [2, 3, 4]),
    Node(Ascii('4'), [5]),
    Node(Dot, [5, 7]),
    Node(Plus(5), [5]),
    Node(Ascii('h'), [8]),
    Node(Ascii('i'), [1])
  ]

  const T := Node(Terminal, [])
  const A := Node(Ascii('a'), [])

  // The builder after each character of `a*4.+hi`.
  const Demo1 := Builder([Node(Start, [2]), T, A], [0, 2], Some(2))
  const Demo2 := Builder([Node(Start, [3]), T, A, Node(Star(2), [2, 3])], [0, 2, 3], Some(3))
  const Demo3 := Builder([Node(Start, [3]), T, A, Node(Star(2), [2, 3, 4]), Node(Ascii('4'), [])],
                         [0, 2, 3, 4], Some(4))
  const Demo4 := Builder([Node(Start, [3]), T, A, Node(Star(2), [2, 3, 4]), Node(Ascii('4'), [5]),
                          Node(Dot, [])],
                         [0, 2, 3, 4, 5], Some(5))
  const Demo5 := Builder([Node(Start, [6]), T, A, Node(Star(2), [2, 3, 4]), Node(Ascii('4'), [5]),
                          Node(Dot, [5]), Node(Plus(5), [5])],
                         [0, 2, 3, 4, 5, 6], Some(5))
  const Demo6 := Builder([Node(Start, [6]), T, A, Node(Star(2), [2, 3, 4]), Node(Ascii('4'), [5]),
                          Node(Dot, [5, 7]), Node(Plus(5), [5]), Node(Ascii('h'), [])],
                         [0, 2, 3, 4, 5, 6, 7], Some(7))
  const Demo7 := Builder([Node(Start, [6]), T, A, Node(Star(2), [2, 3, 4]), Node(Ascii('4'), [5]),
                          Node(Dot, [5, 7]), Node(Plus(5), [5]), Node(Ascii('h'), [8]), Node(Ascii('i'), [])],
                         [0, 2, 3, 4, 5, 6, 7, 8], Some(8))

  lemma DemoStep1()
    ensures Step(Initial(), 'a') == Success(Demo1)
  {
    var none: seq<nat> := [];
    assert none + [2] == [2];
    var m := Initial().nodes + [A];
    assert m == [Node(Start, []), T, A];
    assert AddEdge(m, 0, 2) == Demo1.nodes;
    assert [0] + [2] == [0, 2];
  }

  lemma DemoStep2()
    ensures Step(Demo1, '*') == Success(Demo2)
  {
    var none: seq<nat> := [];
    assert none + [2] == [2] && [2][0 := 3] == [3] && [2] + [3] == [2, 3];
    var m := Demo1.nodes + [Node(Star(2), [])];
    assert m == [Node(Start, [2]), T, A, Node(Star(2), [])];
    var a := SetLastEdge(m, 3);
    assert a == [Node(Start, [3]), T, A, Node(Star(2), [])];
    assert AddEdge(a, 3, 2) == [Node(Start, [3]), T, A, Node(Star(2), [2])];
    assert AddEdge(AddEdge(a, 3, 2), 3, 3) == Demo2.nodes;
    assert [0, 2] + [3] == [0, 2, 3];
  }

  lemma DemoStep3()
    ensures Step(Demo2, '4') == Success(Demo3)
  {
    assert [2, 3] + [4] == [2, 3, 4];
    var m := Demo2.nodes + [Node(Ascii('4'), [])];
    assert m == [Node(Start, [3]), T, A, Node(Star(2), [2, 3]), Node(Ascii('4'), [])];
    assert AddEdge(m, 3, 4) == Demo3.nodes;
    assert [0, 2, 3] + [4] == [0, 2, 3, 4];
  }

  lemma DemoStep4()
    ensures Step(Demo3, '.') == Success(Demo4)
  {
    var none: seq<nat> := [];
    assert none + [5] == [5];
    var m := Demo3.nodes + [Node(Dot, [])];
    assert m == [Node(Start, [3]), T, A, Node(Star(2), [2, 3, 4]), Node(Ascii('4'), []), Node(Dot, [])];
    assert AddEdge(m, 4, 5) == Demo4.nodes;
    assert [0, 2, 3, 4] + [5] == [0, 2, 3, 4, 5];
  }

  lemma DemoStep5()
    ensures Step(Demo4, '+') == Success(Demo5)
  {
    var none: seq<nat> := [];
    assert none + [5] == [5] && [3][0 := 6] == [6];
    var m := Demo4.nodes + [Node(Plus(5), [])];
    assert m == [Node(Start, [3]), T, A, Node(Star(2), [2, 3, 4]), Node(Ascii('4'), [5]),
                 Node(Dot, []), Node(Plus(5), [])];
    var a := SetLastEdge(m, 6);
    assert a == [Node(Start, [6]), T, A, Node(Star(2), [2, 3, 4]), Node(Ascii('4'), [5]),
                 Node(Dot, []), Node(Plus(5), [])];
    assert AddEdge(a, 6, 5) == [Node(Start, [6]), T, A, Node(Star(2), [2, 3, 4]), Node(Ascii('4'), [5]),
                                Node(Dot, []), Node(Plus(5), [5])];
    assert AddEdge(AddEdge(a, 6, 5), 5, 5) == Demo5.nodes;
    assert [0, 2, 3, 4, 5] + [6] == [0, 2, 3, 4, 5, 6];
  }

  lemma DemoStep6()
    ensures Step(Demo5, 'h') == Success(Demo6)
  {
    assert [5] + [7] == [5, 7];
    var m := Demo5.nodes + [Node(Ascii('h'), [])];
    assert m == [Node(Start, [6]), T, A, Node(Star(2), [2, 3, 4]), Node(Ascii('4'), [5]),
                 Node(Dot, [5]), Node(Plus(5), [5]), Node(Ascii('h'), [])];
    assert AddEdge(m, 5, 7) == Demo6.nodes;
    assert [0, 2, 3, 4, 5, 6] + [7] == [0, 2, 3, 4, 5, 6, 7];
  }

  lemma DemoStep7()
    ensures Step(Demo6, 'i') == Success(Demo7)
  {
    var none: seq<nat> := [];
    assert none + [8] == [8];
    var m := Demo6.nodes + [Node(Ascii('i'), [])];
    assert m == [Node(Start, [6]), T, A, Node(Star(2), [2, 3, 4]), Node(Ascii('4'), [5]),
                 Node(Dot, [5, 7]), Node(Plus(5), [5]), Node(Ascii('h'), []), Node(Ascii('i'), [])];
    assert AddEdge(m, 7, 8) == Demo7.nodes;
    assert [0, 2, 3, 4, 5, 6, 7] + [8] == [0, 2, 3, 4, 5, 6, 7, 8];
  }

  /** `RegexFSM("a*4.+hi")` builds `DemoNodes`. */
  lemma CompileDemo()
    ensures Build("a*4.+hi") == Success(Fsm(DemoNodes, [0, 2, 3, 4, 5, 6, 7, 8]))
  {
    var p := "a*4.+hi";
    DemoStep1(); DemoStep2(); DemoStep3(); DemoStep4(); DemoStep5(); DemoStep6(); DemoStep7();
    assert Scan(p, 1) == Success(Demo1);
    assert Scan(p, 2) == Success(Demo2);
    assert Scan(p, 3) == Success(Demo3);
    assert Scan(p, 4) == Success(Demo4);
    assert Scan(p, 5) == Success(Demo5);
    assert Scan(p, 6) == Success(Demo6);
    assert Scan(p, 7) == Success(Demo7);
    var none: seq<nat> := [];
    assert none + [1] == [1];
    assert AddEdge(Demo7.nodes, 8, 1) == DemoNodes;
  }

  lemma DemoShape()
    ensures Shape(DemoNodes)
  {
    CompileDemo();
    BuildShape("a*4.+hi");
  }

  /** From the `i` state at `pos`: accept exactly at the end of the input. */
  lemma DemoFromI(s: string, pos: nat)
    requires pos <= |s|
    requires Shape(DemoNodes)
    ensures AcceptsFrom(DemoNodes, s, Entry(8, pos)) <==> pos == |s|
  {
    if pos < |s| {
      DemoIPushes(s[pos], pos);
      AcceptsFromNone(DemoNodes, s, Entry(8, pos));
    }
  }

  /** The `i` state only leads to the terminal state, which accepts no character. */
  lemma DemoIPushes(c: char, pos: nat)
    ensures Pushes(DemoNodes, DemoNodes[8].next, c, pos) == []
  {
    PushesOne(DemoNodes, DemoNodes[8].next, 1, c, pos);
    assert !CheckSelf(DemoNodes, 1, c);
  }

  lemma DemoHPushes(c: char, pos: nat)
    ensures Pushes(DemoNodes, DemoNodes[7].next, c, pos) == if c == 'i' then [Entry(8, pos + 1)] else []
  {
    PushesOne(DemoNodes, DemoNodes[7].next, 8, c, pos);
  }

  /** The `h` state moves to the `i` state on an `i`. */
  lemma DemoHStep(s: string, pos: nat)
    requires pos < |s|
    requires Shape(DemoNodes)
    ensures AcceptsFrom(DemoNodes, s, Entry(7, pos)) == (s[pos] == 'i' && AcceptsFrom(DemoNodes, s, Entry(8, pos + 1)))
  {
    DemoHPushes(s[pos], pos);
    AcceptsFromIf(DemoNodes, s, Entry(7, pos), s[pos] == 'i', Entry(8, pos + 1));
  }

  lemma DemoHAtEnd(s: string)
    requires Shape(DemoNodes)
    ensures !AcceptsFrom(DemoNodes, s, Entry(7, |s|))
  {
    assert !EndsHere(DemoNodes, 7);
  }

  /** From the `h` state at `pos`: the next character is the last one and is `i`. */
  lemma DemoFromH(s: string, pos: nat)
    requires pos <= |s|
    requires Shape(DemoNodes)
    ensures AcceptsFrom(DemoNodes, s, Entry(7, pos)) <==> pos + 1 == |s| && s[pos] == 'i'
  {
    if pos == |s| {
      DemoHAtEnd(s);
    } else {
      DemoHStep(s, pos);
      DemoFromI(s, pos + 1);
      assert AcceptsFrom(DemoNodes, s, Entry(7, pos)) == (s[pos] == 'i' && pos + 1 == |s|);
    }
  }

  lemma DemoDotChildren(s: string, pos: nat)
    requires pos < |s|
    requires Shape(DemoNodes)
    ensures Children(DemoNodes, s, Entry(5, pos))
      == [Entry(5, pos + 1)] + if s[pos] == 'h' then [Entry(7, pos + 1)] else []
  {
    DemoDotPushes(s[pos], pos);
  }

  /** What the `.` state of `a*4.+hi` pushes on character `c`. */
  lemma DemoDotPushes(c: char, pos: nat)
    ensures Pushes(DemoNodes, DemoNodes[5].next, c, pos)
      == [Entry(5, pos + 1)] + if c == 'h' then [Entry(7, pos + 1)] else []
  {
    var succs := DemoNodes[5].next;
    assert succs == [5, 7] && succs[..1] == [5];
    PushesOne(DemoNodes, [5], 5, c, pos);
  }

  /** The `.` state at `pos` stays on itself, and on an `h` also moves to
      the `h` state. */
  lemma DemoDotStep(s: string, pos: nat)
    requires pos < |s|
    requires Shape(DemoNodes)
    ensures AcceptsFrom(DemoNodes, s, Entry(5, pos))
      == (AcceptsFrom(DemoNodes, s, Entry(5, pos + 1)) || (s[pos] == 'h' && AcceptsFrom(DemoNodes, s, Entry(7, pos + 1))))
  {
    DemoDotChildren(s, pos);
    if s[pos] == 'h' {
      assert [Entry(5, pos + 1)] + [Entry(7, pos + 1)] == [Entry(5, pos + 1), Entry(7, pos + 1)];
      AcceptsFromTwo(DemoNodes, s, Entry(5, pos), Entry(5, pos + 1), Entry(7, pos + 1));
    } else {
      AcceptsFromOne(DemoNodes, s, Entry(5, pos), Entry(5, pos + 1));
    }
  }

  lemma DemoDotAtEnd(s: string)
    requires Shape(DemoNodes)
    ensures !AcceptsFrom(DemoNodes, s, Entry(5, |s|))
  {
    assert !EndsHere(DemoNodes, 5);
  }

  /** From the `.` state (looping on itself) at `pos`: at least two more
      characters, and the input ends in `hi`. */
  lemma {:induction false} DemoFromDot(s: string, pos: nat)
    requires pos <= |s|
    requires Shape(DemoNodes)
    ensures AcceptsFrom(DemoNodes, s, Entry(5, pos))
      <==> pos + 2 <= |s| && s[|s| - 2] == 'h' && s[|s| - 1] == 'i'
    decreases |s| - pos
  {
    if pos == |s| {
      DemoDotAtEnd(s);
    } else {
      DemoDotStep(s, pos);
      DemoFromDot(s, pos + 1);
      DemoFromH(s, pos + 1);
      if pos + 2 == |s| {
        assert AcceptsFrom(DemoNodes, s, Entry(5, pos)) == (s[pos] == 'h' && s[pos + 1] == 'i');
      } else {
        assert AcceptsFrom(DemoNodes, s, Entry(5, pos)) == AcceptsFrom(DemoNodes, s, Entry(5, pos + 1));
      }
    }
  }

  /** The `+` state (checking with the `.` state it wraps) does not accept
      at the end of the input. */
  lemma DemoPlusAtEnd(s: string)
    requires Shape(DemoNodes)
    ensures !AcceptsFrom(DemoNodes, s, Entry(6, |s|))
  {
    assert !EndsHere(DemoNodes, 6);
  }

  /** The `+` state moves to the `.` state it wraps on any character. */
  lemma DemoPlusStep(s: string, pos: nat)
    requires pos < |s|
    requires Shape(DemoNodes)
    ensures AcceptsFrom(DemoNodes, s, Entry(6, pos)) == AcceptsFrom(DemoNodes, s, Entry(5, pos + 1))
  {
    DemoPlusPushes(s[pos], pos);
    AcceptsFromOne(DemoNodes, s, Entry(6, pos), Entry(5, pos + 1));
  }

  lemma DemoPlusPushes(c: char, pos: nat)
    ensures Pushes(DemoNodes, DemoNodes[6].next, c, pos) == [Entry(5, pos + 1)]
  {
    PushesOne(DemoNodes, DemoNodes[6].next, 5, c, pos);
  }

  /** The start state moves to the `+` state on any character. */
  lemma DemoStartStep(s: string)
    requires 0 < |s|
    requires Shape(DemoNodes)
    ensures AcceptsFrom(DemoNodes, s, Entry(StartId, 0)) == AcceptsFrom(DemoNodes, s, Entry(6, 1))
  {
    DemoStartPushes(s[0]);
    AcceptsFromOne(DemoNodes, s, Entry(StartId, 0), Entry(6, 1));
  }

  lemma DemoStartPushes(c: char)
    ensures Pushes(DemoNodes, DemoNodes[StartId].next, c, 0) == [Entry(6, 1)]
  {
    PushesOne(DemoNodes, DemoNodes[StartId].next, 6, c, 0);
  }

  lemma DemoStartAtEnd()
    requires Shape(DemoNodes)
    ensures !AcceptsFrom(DemoNodes, "", Entry(StartId, 0))
  {
    assert !EndsHere(DemoNodes, StartId);
  }

  /** `a*4.+hi` as compiled matches exactly the strings of at least four
      characters that end in `hi`. */
  lemma DemoLanguage(s: string)
    ensures Shape(DemoNodes)
    ensures Matches(Fsm(DemoNodes, [0, 2, 3, 4, 5, 6, 7, 8]), s)
      <==> |s| >= 4 && s[|s| - 2] == 'h' && s[|s| - 1] == 'i'
  {
    DemoShape();
    if |s| == 0 {
      DemoStartAtEnd();
    } else if |s| == 1 {
      DemoStartStep(s);
      DemoPlusAtEnd(s);
    } else {
      DemoStartStep(s);
      DemoPlusStep(s, 1);
      DemoFromDot(s, 2);
    }
  }

  /** The two `True` results the demonstration block prints. */
  lemma DemoAccepts()
    ensures Build("a*4.+hi").Success? && Shape(Build("a*4.+hi").value.nodes)
    ensures Matches(Build("a*4.+hi").value, "aaaaaa4uhi")
    ensures Matches(Build("a*4.+hi").value, "4uhi")
  {
    CompileDemo();
    DemoLanguage("aaaaaa4uhi");
    DemoLanguage("4uhi");
  }

  /** The `False` result the demonstration block prints. */
  lemma DemoRejects()
    ensures Build("a*4.+hi").Success? && Shape(Build("a*4.+hi").value.nodes)
    ensures !Matches(Build("a*4.+hi").value, "meow")
  {
    CompileDemo();
    DemoLanguage("meow");
  }

  // ---------------------------------------------------------------------
  // `a*`

  /** The automaton `a*` compiles to: start leads to the `*` state, which
      leads to `a`, to itself and to the terminal. */
  const StarNodes: seq<Node> := [Node(Start, [3]), T, A, Node(Star(2), [2, 3, 1])]

  lemma CompileStar()
    ensures Build("a*") == Success(Fsm(StarNodes, [0, 2, 3]))
  {
    var p := "a*";
    DemoStep1();
    DemoStep2();
    assert Scan(p, 1) == Success(Demo1);
    assert Scan(p, 2) == Success(Demo2);
    assert [2, 3] + [1] == [2, 3, 1];
    assert AddEdge(Demo2.nodes, 3, 1) == StarNodes;
  }

  lemma StarShape()
    ensures Shape(StarNodes)
  {
    CompileStar();
    BuildShape("a*");
  }

  /** The `a` state of `a*` has no way on: it never accepts. */
  lemma StarFromAtom(s: string, pos: nat)
    requires pos <= |s|
    requires Shape(StarNodes)
    ensures !AcceptsFrom(StarNodes, s, Entry(2, pos)) && !AcceptsFrom(StarNodes, s, Entry(TerminalId, pos))
  {
    assert !EndsHere(StarNodes, 2) && !EndsHere(StarNodes, TerminalId);
    if pos < |s| {
      assert Children(StarNodes, s, Entry(2, pos)) == [];
      assert Children(StarNodes, s, Entry(TerminalId, pos)) == [];
    }
  }

  /** The skip step through the `*` state of `a*`. */
  lemma StarSkips(pos: nat)
    ensures Skips(3, StarNodes[3].next, pos) == [Entry(2, pos), Entry(TerminalId, pos)]
  {
    var e: seq<nat> := [];
    assert [2, 3, 1][..2] == [2, 3] && [2, 3][..1] == [2] && [2][..0] == e;
    assert Skips(3, [2], pos) == [Entry(2, pos)];
    assert Skips(3, [2, 3], pos) == [Entry(2, pos)];
  }

  /** What the `*` state of `a*` pushes on character `c`. */
  lemma StarPushes(c: char, pos: nat)
    ensures Pushes(StarNodes, StarNodes[3].next, c, pos)
      == (if c == 'a' then [Entry(2, pos + 1), Entry(3, pos + 1)] else [])
         + [Entry(2, pos), Entry(TerminalId, pos)]
  {
    var succs := StarNodes[3].next;
    assert succs[..2] == [2, 3] && succs[..2][..1] == [2] && succs[..2][..1][..0] == [];
    StarSkips(pos);
    assert !CheckSelf(StarNodes, TerminalId, c);
    assert CheckSelf(StarNodes, 2, c) == (c == 'a') && CheckSelf(StarNodes, 3, c) == (c == 'a');
    assert Pushes(StarNodes, [2], c, pos) == if c == 'a' then [Entry(2, pos + 1)] else [];
    assert Pushes(StarNodes, [2, 3], c, pos)
      == Pushes(StarNodes, [2], c, pos) + (if c == 'a' then [Entry(3, pos + 1)] else [])
         + Skips(3, StarNodes[3].next, pos);
    assert Pushes(StarNodes, succs, c, pos) == Pushes(StarNodes, [2, 3], c, pos);
    var none: seq<Entry> := [];
    assert none + [Entry(2, pos), Entry(TerminalId, pos)] == [Entry(2, pos), Entry(TerminalId, pos)];
  }

  lemma StarChildren(s: string, pos: nat)
    requires pos < |s|
    requires Shape(StarNodes)
    ensures Children(StarNodes, s, Entry(3, pos))
      == (if s[pos] == 'a' then [Entry(2, pos + 1), Entry(3, pos + 1)] else [])
         + [Entry(2, pos), Entry(TerminalId, pos)]
  {
    StarPushes(s[pos], pos);
  }

  /** The `*` state of `a*` on an `a` goes back to itself one position on;
      the other entries it pushes never accept. */
  lemma StarStep(s: string, pos: nat)
    requires pos < |s|
    requires Shape(StarNodes)
    ensures AcceptsFrom(StarNodes, s, Entry(3, pos)) == (s[pos] == 'a' && AcceptsFrom(StarNodes, s, Entry(3, pos + 1)))
  {
    StarChildren(s, pos);
    StarFromAtom(s, pos);
    if s[pos] == 'a' {
      AcceptsFromConcat(StarNodes, s, Entry(3, pos),
        [Entry(2, pos + 1), Entry(3, pos + 1)], [Entry(2, pos), Entry(TerminalId, pos)]);
      AnyAcceptsPair(StarNodes, s, Entry(2, pos + 1), Entry(3, pos + 1));
      AnyAcceptsPair(StarNodes, s, Entry(2, pos), Entry(TerminalId, pos));
      StarFromAtom(s, pos + 1);
    } else {
      AcceptsFromTwo(StarNodes, s, Entry(3, pos), Entry(2, pos), Entry(TerminalId, pos));
    }
  }

  /** From the `*` state at `pos`: every remaining character is `a`. */
  lemma {:induction false} StarFromStar(s: string, pos: nat)
    requires pos <= |s|
    requires Shape(StarNodes)
    ensures AcceptsFrom(StarNodes, s, Entry(3, pos)) <==> OnlyFrom(s, 'a', pos)
    decreases |s| - pos
  {
    if pos < |s| {
      StarStep(s, pos);
      StarFromStar(s, pos + 1);
    } else {
      assert TerminalId in StarNodes[3].next;
    }
  }

  /** What the start state of `a*` pushes on character `c`. */
  lemma StarStartPushes(c: char)
    ensures Pushes(StarNodes, StarNodes[StartId].next, c, 0)
      == (if c == 'a' then [Entry(3, 1)] else []) + [Entry(2, 0), Entry(TerminalId, 0)]
  {
    var succs := StarNodes[StartId].next;
    assert succs == [3] && succs[..0] == [];
    StarSkips(0);
    assert CheckSelf(StarNodes, 3, c) == (c == 'a');
    var none: seq<Entry> := [];
    assert none + none == none && none + [Entry(3, 1)] == [Entry(3, 1)];
  }

  lemma StarStartChildren(s: string)
    requires 0 < |s|
    requires Shape(StarNodes)
    ensures Children(StarNodes, s, Entry(StartId, 0))
      == (if s[0] == 'a' then [Entry(3, 1)] else []) + [Entry(2, 0), Entry(TerminalId, 0)]
  {
    StarStartPushes(s[0]);
  }

  /** The start state of `a*` on an `a` moves to the `*` state; the skip
      entries it pushes never accept. */
  lemma StarStartStep(s: string)
    requires 0 < |s|
    requires Shape(StarNodes)
    ensures AcceptsFrom(StarNodes, s, Entry(StartId, 0)) == (s[0] == 'a' && AcceptsFrom(StarNodes, s, Entry(3, 1)))
  {
    StarStartChildren(s);
    var front := if s[0] == 'a' then [Entry(3, 1)] else [];
    AcceptsFromConcat(StarNodes, s, Entry(StartId, 0), front, [Entry(2, 0), Entry(TerminalId, 0)]);
    AnyAcceptsPair(StarNodes, s, Entry(2, 0), Entry(TerminalId, 0));
    StarFromAtom(s, 0);
    if s[0] == 'a' {
      assert front[0] == Entry(3, 1);
    }
  }

  /** `a*` as compiled matches exactly the strings made only of `a`. */
  lemma StarLanguage(s: string)
    ensures Shape(StarNodes)
    ensures Matches(Fsm(StarNodes, [0, 2, 3]), s) <==> forall k | 0 <= k < |s| :: s[k] == 'a'
  {
    StarShape();
    OnlyFromEvery(s, 'a', 0);
    if |s| == 0 {
      var succs := StarNodes[StartId].next;
      assert succs[0] == 3 && StarNodes[3].kind.Star? && StarNodes[3].next[2] == TerminalId;
      assert EndsHere(StarNodes, StartId);
    } else {
      StarStartStep(s);
      StarFromStar(s, 1);
    }
  }

  /** `a*` accepts the empty string (through the `*` state's edge to the
      terminal) and rejects `b`. */
  lemma StarCases()
    ensures Build("a*").Success? && Shape(Build("a*").value.nodes)
    ensures Matches(Build("a*").value, "")
    ensures !Matches(Build("a*").value, "b")
  {
    CompileStar();
    StarLanguage("");
    StarLanguage("b");
  }

  // ---------------------------------------------------------------------
  // `a+`

  /** The automaton `a+` compiles to: start leads to the `+` state, which
      leads to `a`; the `a` state loops on itself and reaches the terminal. */
  const PlusNodes: seq<Node> := [Node(Start, [3]), T, Node(Ascii('a'), [2, 1]), Node(Plus(2), [2])]

  lemma CompilePlus()
    ensures Build("a+") == Success(Fsm(PlusNodes, [0, 2, 3]))
  {
    var p := "a+";
    DemoStep1();
    var b2 := Builder([Node(Start, [3]), T, Node(Ascii('a'), [2]), Node(Plus(2), [2])], [0, 2, 3], Some(2));
    var none: seq<nat> := [];
    assert none + [2] == [2] && [2][0 := 3] == [3] && [2] + [1] == [2, 1];
    var m := Demo1.nodes + [Node(Plus(2), [])];
    assert m == [Node(Start, [2]), T, A, Node(Plus(2), [])];
    var a := SetLastEdge(m, 3);
    assert a == [Node(Start, [3]), T, A, Node(Plus(2), [])];
    assert AddEdge(a, 3, 2) == [Node(Start, [3]), T, A, Node(Plus(2), [2])];
    assert AddEdge(AddEdge(a, 3, 2), 2, 2) == b2.nodes;
    assert [0, 2] + [3] == [0, 2, 3];
    assert Step(Demo1, '+') == Success(b2);
    assert Scan(p, 1) == Success(Demo1);
    assert Scan(p, 2) == Success(b2);
    assert AddEdge(b2.nodes, 2, 1) == PlusNodes;
  }

  lemma PlusShape()
    ensures Shape(PlusNodes)
  {
    CompilePlus();
    BuildShape("a+");
  }

  lemma PlusAtomChildren(s: string, pos: nat)
    requires pos < |s|
    requires Shape(PlusNodes)
    ensures Children(PlusNodes, s, Entry(2, pos)) == if s[pos] == 'a' then [Entry(2, pos + 1)] else []
  {
    PlusAtomPushes(s[pos], pos);
  }

  /** What the `a` state of `a+` pushes on character `c`. */
  lemma PlusAtomPushes(c: char, pos: nat)
    ensures Pushes(PlusNodes, PlusNodes[2].next, c, pos) == if c == 'a' then [Entry(2, pos + 1)] else []
  {
    var succs := PlusNodes[2].next;
    assert succs == [2, 1] && succs[..1] == [2] && succs[..1][..0] == [];
    assert !CheckSelf(PlusNodes, TerminalId, c);
    PushesOne(PlusNodes, [2], 2, c, pos);
  }

  /** The `a` state of `a+` loops on itself on an `a`. */
  lemma PlusAtomStep(s: string, pos: nat)
    requires pos < |s|
    requires Shape(PlusNodes)
    ensures AcceptsFrom(PlusNodes, s, Entry(2, pos)) == (s[pos] == 'a' && AcceptsFrom(PlusNodes, s, Entry(2, pos + 1)))
  {
    PlusAtomChildren(s, pos);
    AcceptsFromIf(PlusNodes, s, Entry(2, pos), s[pos] == 'a', Entry(2, pos + 1));
  }

  /** From the `a` state of `a+` at `pos`: every remaining character is `a`. */
  lemma {:induction false} PlusFromAtom(s: string, pos: nat)
    requires pos <= |s|
    requires Shape(PlusNodes)
    ensures AcceptsFrom(PlusNodes, s, Entry(2, pos)) <==> OnlyFrom(s, 'a', pos)
    decreases |s| - pos
  {
    if pos == |s| {
      assert TerminalId in PlusNodes[2].next;
    } else {
      PlusAtomStep(s, pos);
      PlusFromAtom(s, pos + 1);
    }
  }

  /** The start state of `a+` moves to the `+` state on an `a`. */
  lemma PlusStartStep(s: string)
    requires 0 < |s|
    requires Shape(PlusNodes)
    ensures AcceptsFrom(PlusNodes, s, Entry(StartId, 0)) == (s[0] == 'a' && AcceptsFrom(PlusNodes, s, Entry(3, 1)))
  {
    PushesOne(PlusNodes, PlusNodes[StartId].next, 3, s[0], 0);
    AcceptsFromIf(PlusNodes, s, Entry(StartId, 0), s[0] == 'a', Entry(3, 1));
  }

  /** The `+` state moves to the `a` state it wraps on an `a`. */
  lemma PlusStep(s: string, pos: nat)
    requires pos < |s|
    requires Shape(PlusNodes)
    ensures AcceptsFrom(PlusNodes, s, Entry(3, pos)) == (s[pos] == 'a' && AcceptsFrom(PlusNodes, s, Entry(2, pos + 1)))
  {
    PushesOne(PlusNodes, PlusNodes[3].next, 2, s[pos], pos);
    AcceptsFromIf(PlusNodes, s, Entry(3, pos), s[pos] == 'a', Entry(2, pos + 1));
  }

  /** The `+` state does not accept at the end of the input: it only
      reaches the terminal through the state it wraps. */
  lemma PlusAtEnd(s: string)
    requires Shape(PlusNodes)
    ensures !AcceptsFrom(PlusNodes, s, Entry(3, |s|))
  {
    assert !EndsHere(PlusNodes, 3);
  }

  /** `a+` as compiled matches exactly the strings of two or more `a`s: the
      `+` state consumes one `a` before the `a` state must consume another. */
  lemma PlusLanguage(s: string)
    ensures Shape(PlusNodes)
    ensures Matches(Fsm(PlusNodes, [0, 2, 3]), s) <==> |s| >= 2 && forall k | 0 <= k < |s| :: s[k] == 'a'
  {
    PlusShape();
    OnlyFromEvery(s, 'a', 0);
    if |s| == 0 {
      assert !EndsHere(PlusNodes, StartId);
    } else {
      PlusStartStep(s);
      if |s| == 1 {
        PlusAtEnd(s);
      } else {
        PlusStep(s, 1);
        PlusFromAtom(s, 2);
        assert OnlyFrom(s, 'a', 0) == (s[0] == 'a' && s[1] == 'a' && OnlyFrom(s, 'a', 2));
      }
    }
  }

  /** `a+` as compiled rejects `a` and accepts `aa`. */
  lemma PlusCases()
    ensures Build("a+").Success? && Shape(Build("a+").value.nodes)
    ensures !Matches(Build("a+").value, "a")
    ensures Matches(Build("a+").value, "aa")
  {
    CompilePlus();
    PlusLanguage("a");
    PlusLanguage("aa");
  }

  // ---------------------------------------------------------------------
  // `ab*c`: the quantifier overwrites the start state's edge

  /** The automaton `ab*c` compiles to: the `*` replaced the start state's
      edge to `a`, so the `a` state is unreachable. */
  const SpliceNodes: seq<Node> :=
    [Node(Start, [4]), T, Node(Ascii('a'), [3]), Node(Ascii('b'), []), Node(Star(3), [3, 4, 5]),
     Node(Ascii('c'), [1])]

  const B := Node(Ascii('b'), [])
  const Splice2 := Builder([Node(Start, [2]), T, Node(Ascii('a'), [3]), B], [0, 2, 3], Some(3))
  const Splice3 := Builder([Node(Start, [4]), T, Node(Ascii('a'), [3]), B, Node(Star(3), [3, 4])],
                           [0, 2, 3, 4], Some(4))
  const Splice4 := Builder([Node(Start, [4]), T, Node(Ascii('a'), [3]), B, Node(Star(3), [3, 4, 5]),
                            Node(Ascii('c'), [])],
                           [0, 2, 3, 4, 5], Some(5))

  lemma SpliceStep2()
    ensures Step(Demo1, 'b') == Success(Splice2)
  {
    var none: seq<nat> := [];
    assert none + [3] == [3];
    var m2 := Demo1.nodes + [B];
    assert m2 == [Node(Start, [2]), T, A, B];
    assert AddEdge(m2, 2, 3) == Splice2.nodes;
    assert [0, 2] + [3] == [0, 2, 3];
  }

  lemma SpliceStep3()
    ensures Step(Splice2, '*') == Success(Splice3)
  {
    var none: seq<nat> := [];
    assert none + [3] == [3] && [2][0 := 4] == [4] && [3] + [4] == [3, 4];
    var m3 := Splice2.nodes + [Node(Star(3), [])];
    assert m3 == [Node(Start, [2]), T, Node(Ascii('a'), [3]), B, Node(Star(3), [])];
    var a := SetLastEdge(m3, 4);
    assert a == [Node(Start, [4]), T, Node(Ascii('a'), [3]), B, Node(Star(3), [])];
    assert AddEdge(a, 4, 3) == [Node(Start, [4]), T, Node(Ascii('a'), [3]), B, Node(Star(3), [3])];
    assert AddEdge(AddEdge(a, 4, 3), 4, 4) == Splice3.nodes;
    assert [0, 2, 3] + [4] == [0, 2, 3, 4];
  }

  lemma SpliceStep4()
    ensures Step(Splice3, 'c') == Success(Splice4)
  {
    assert [3, 4] + [5] == [3, 4, 5];
    var m4 := Splice3.nodes + [Node(Ascii('c'), [])];
    assert m4 == [Node(Start, [4]), T, Node(Ascii('a'), [3]), B, Node(Star(3), [3, 4]), Node(Ascii('c'), [])];
    assert AddEdge(m4, 4, 5) == Splice4.nodes;
    assert [0, 2, 3, 4] + [5] == [0, 2, 3, 4, 5];
  }

  lemma CompileSplice()
    ensures Build("ab*c") == Success(Fsm(SpliceNodes, [0, 2, 3, 4, 5]))
  {
    var p := "ab*c";
    DemoStep1();
    SpliceStep2();
    SpliceStep3();
    SpliceStep4();
    assert Scan(p, 1) == Success(Demo1);
    assert Scan(p, 2) == Success(Splice2);
    assert Scan(p, 3) == Success(Splice3);
    assert Scan(p, 4) == Success(Splice4);
    var none: seq<nat> := [];
    assert none + [1] == [1];
    assert AddEdge(Splice4.nodes, 5, 1) == SpliceNodes;
  }

  lemma SpliceShape()
    ensures Shape(SpliceNodes)
  {
    CompileSplice();
    BuildShape("ab*c");
  }

  /** The skip step through the `*` state of `ab*c`. */
  lemma SpliceSkips(pos: nat)
    ensures Skips(4, SpliceNodes[4].next, pos) == [Entry(3, pos), Entry(5, pos)]
  {
    var e: seq<nat> := [];
    assert [3, 4, 5][..2] == [3, 4] && [3, 4][..1] == [3] && [3][..0] == e;
    assert Skips(4, [3], pos) == [Entry(3, pos)];
    assert Skips(4, [3, 4], pos) == [Entry(3, pos)];
  }

  /** `bc`: the start state's `*` successor consumes `b`, its successor
      `c` consumes `c`, and the terminal follows. */
  lemma SpliceAcceptsBc()
    ensures Shape(SpliceNodes)
    ensures AcceptsFrom(SpliceNodes, "bc", Entry(StartId, 0))
  {
    SpliceShape();
    var bc := "bc";
    var start := SpliceNodes[StartId].next;
    assert start == [4] && start[..0] == [];
    assert CheckSelf(SpliceNodes, 4, 'b');
    assert Entry(4, 1) in Children(SpliceNodes, bc, Entry(StartId, 0));
    var succs := SpliceNodes[4].next;
    assert succs == [3, 4, 5] && succs[..2] == [3, 4];
    assert CheckSelf(SpliceNodes, 5, 'c');
    assert Children(SpliceNodes, bc, Entry(4, 1))
      == Pushes(SpliceNodes, [3, 4], 'c', 1) + [Entry(5, 2)];
    assert Entry(5, 2) in Children(SpliceNodes, bc, Entry(4, 1));
    assert AcceptsFrom(SpliceNodes, bc, Entry(5, 2));
    assert AcceptsFrom(SpliceNodes, bc, Entry(4, 1));
  }

  /** `abc`: the `*` state's `b` refuses `a`, and the states the skip step
      reaches cannot go on. */
  lemma SpliceRejectsAbc()
    ensures Shape(SpliceNodes)
    ensures !AcceptsFrom(SpliceNodes, "abc", Entry(StartId, 0))
  {
    SpliceShape();
    SpliceSkips(0);
    var abc := "abc";
    var start := SpliceNodes[StartId].next;
    assert start == [4] && start[..0] == [];
    assert !CheckSelf(SpliceNodes, 4, 'a');
    assert Children(SpliceNodes, abc, Entry(StartId, 0)) == Pushes(SpliceNodes, start, 'a', 0);
    assert Pushes(SpliceNodes, start, 'a', 0) == Skips(4, SpliceNodes[4].next, 0);
    assert Children(SpliceNodes, abc, Entry(StartId, 0)) == [Entry(3, 0), Entry(5, 0)];
    assert Children(SpliceNodes, abc, Entry(3, 0)) == [];
    PushesOne(SpliceNodes, SpliceNodes[5].next, TerminalId, 'a', 0);
    assert !CheckSelf(SpliceNodes, TerminalId, 'a');
    assert Children(SpliceNodes, abc, Entry(5, 0)) == [];
    assert !AcceptsFrom(SpliceNodes, abc, Entry(3, 0)) && !AcceptsFrom(SpliceNodes, abc, Entry(5, 0));
  }

  /** `ab*c` as compiled accepts `bc` but rejects `abc`: its `a` is never
      consulted. */
  lemma SpliceCases()
    ensures Build("ab*c").Success? && Shape(Build("ab*c").value.nodes)
    ensures Matches(Build("ab*c").value, "bc")
    ensures !Matches(Build("ab*c").value, "abc")
  {
    CompileSplice();
    SpliceAcceptsBc();
    SpliceRejectsAbc();
  }

  // ---------------------------------------------------------------------
  // Patterns without quantifiers, and compile errors

  /** `a.c` has no quantifier and compiles. */
  lemma DotPattern()
    ensures QuantifierFree("a.c") && Build("a.c").Success?
  {
    var p := "a.c";
    BuildFailsExactly(p);
    assert ValidPattern(p) by {
      assert forall k | 0 <= k < |p| :: p[k] in {'a', '.', 'c'};
    }
  }

  /** `a.c` accepts `abc` but neither `ac` nor `abcd`. */
  lemma LiteralCases()
    ensures Build("a.c").Success? && Shape(Build("a.c").value.nodes)
    ensures Matches(Build("a.c").value, "abc")
    ensures !Matches(Build("a.c").value, "ac")
    ensures !Matches(Build("a.c").value, "abcd")
  {
    DotPattern();
    LiteralLanguage("a.c", "abc");
    LiteralLanguage("a.c", "ac");
    LiteralLanguage("a.c", "abcd");
  }

  /** The empty pattern accepts the empty string and rejects `a`. */
  lemma EmptyCases()
    ensures Build("").Success? && Shape(Build("").value.nodes)
    ensures Matches(Build("").value, "")
    ensures !Matches(Build("").value, "a")
  {
    BuildFailsExactly("");
    LiteralLanguage("", "");
    LiteralLanguage("", "a");
  }

  /** A leading quantifier and a character outside ASCII are refused. */
  lemma ErrorCases()
    ensures Build("*a") == Failure(LeadingQuantifier('*'))
    ensures Build("+") == Failure(LeadingQuantifier('+'))
    ensures Build("a\U{e9}") == Failure(UnsupportedToken('\U{e9}'))
  {
    BuildFailsExactly("*a");
    BuildFailsExactly("+");
    var p := "a\U{e9}";
    BuildFailsExactly(p);
    assert !BadAt(p, 0) && BadAt(p, 1);
    assert FirstBad(p, 1);
    assert forall k | 0 <= k < |p| && FirstBad(p, k) :: k == 1;
  }
}
