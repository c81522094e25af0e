/** Two reference strings worked through the engine step by step: the final
    frames and fault counts they reach. */
module Scenarios {
  import Policy

  // Three frames, K = 2, references 1 2 3 1 4.
  const A0 := Policy.State(2, [-1, -1, -1], [-1, -1, -1, -1, -1], [0, 0, 0], [], [], 0, 0, 0)
  const A1 := Policy.State(2, [1, -1, -1], [-1, 0, -1, -1, -1], [1, 0, 0], [0], [], 1, 1, 1)
  const A2 := Policy.State(2, [1, 2, -1], [-1, 0, 1, -1, -1], [1, 1, 0], [1, 0], [], 2, 2, 2)
  const A3 := Policy.State(2, [1, 2, 3], [-1, 0, 1, 2, -1], [1, 1, 1], [2, 1, 0], [], 3, 3, 3)
  const A4 := Policy.State(2, [1, 2, 3], [-1, 0, 1, 2, -1], [2, 1, 1], [2, 1], [0], 3, 3, 3)
  const A5 := Policy.State(2, [1, 4, 3], [-1, 0, -1, 2, 1], [2, 1, 1], [1, 2], [0], 3, 3, 4)

  lemma AStart()
    ensures Policy.Create(3, 2, 4) == A0
  {
  }

  /** Page 1 misses and takes slot 0. */
  lemma AStep1()
    requires Policy.Inv(A0)
    ensures Policy.Reference(A0, 1) == A1
  {
  }

  /** Page 2 misses and takes slot 1. */
  lemma AStep2()
    requires Policy.Inv(A1)
    ensures Policy.Reference(A1, 2) == A2
  {
  }

  /** Page 3 misses and fills the last frame. */
  lemma AStep3()
    requires Policy.Inv(A2)
    ensures Policy.Reference(A2, 3) == A3
  {
  }

  /** Page 1 reaches K = 2 references and moves to hot. */
  lemma AStep4()
    requires Policy.Inv(A3)
    ensures Policy.Reference(A3, 1) == A4
  {
  }

  /** Page 4 misses; the rear of cold, page 2, gives up slot 1. */
  lemma AStep5()
    requires Policy.Inv(A4)
    ensures Policy.Reference(A4, 4) == A5
  {
  }

  /** Page 1 turns hot on its second reference; page 4 then evicts page 2,
      the rear of cold, and takes its frame. Four faults. */
  lemma ScenarioA()
    ensures var m := Policy.Run(Policy.Create(3, 2, 4), [1, 2, 3, 1, 4]);
      m.frame == [1, 4, 3] && m.faults == 4 && m.cold == [1, 2] && m.hot == [0]
  {
    AStart();
    AFrom0();
  }

  // The run from each state of the trace on.
  lemma AFrom0()
    requires Policy.Inv(A0)
    ensures Policy.Run(A0, [1, 2, 3, 1, 4]) == A5
  {
    AStep1();
    Policy.RunStep(A0, [1, 2, 3, 1, 4]);
    assert [1, 2, 3, 1, 4][1..] == [2, 3, 1, 4];
    AFrom1();
  }

  lemma AFrom1()
    requires Policy.Inv(A1)
    ensures Policy.Run(A1, [2, 3, 1, 4]) == A5
  {
    AStep2();
    Policy.RunStep(A1, [2, 3, 1, 4]);
    assert [2, 3, 1, 4][1..] == [3, 1, 4];
    AFrom2();
  }

  lemma AFrom2()
    requires Policy.Inv(A2)
    ensures Policy.Run(A2, [3, 1, 4]) == A5
  {
    AStep3();
    Policy.RunStep(A2, [3, 1, 4]);
    assert [3, 1, 4][1..] == [1, 4];
    AFrom3();
  }

  lemma AFrom3()
    requires Policy.Inv(A3)
    ensures Policy.Run(A3, [1, 4]) == A5
  {
    AStep4();
    Policy.RunStep(A3, [1, 4]);
    assert [1, 4][1..] == [4];
    AFrom4();
  }

  lemma AFrom4()
    requires Policy.Inv(A4)
    ensures Policy.Run(A4, [4]) == A5
  {
    AStep5();
    Policy.RunStep(A4, [4]);
    assert [4][1..] == [];
  }

  // Two frames, K = 3, references 1 2 1 2 1 2 3.
  const C0 := Policy.State(3, [-1, -1], [-1, -1, -1, -1], [0, 0], [], [], 0, 0, 0)
  const C1 := Policy.State(3, [1, -1], [-1, 0, -1, -1], [1, 0], [0], [], 1, 1, 1)
  const C2 := Policy.State(3, [1, 2], [-1, 0, 1, -1], [1, 1], [1, 0], [], 2, 2, 2)
  const C3 := Policy.State(3, [1, 2], [-1, 0, 1, -1], [2, 1], [0, 1], [], 2, 2, 2)
  const C4 := Policy.State(3, [1, 2], [-1, 0, 1, -1], [2, 2], [1, 0], [], 2, 2, 2)
  const C5 := Policy.State(3, [1, 2], [-1, 0, 1, -1], [3, 2], [1], [0], 2, 2, 2)
  const C6 := Policy.State(3, [1, 2], [-1, 0, 1, -1], [3, 3], [], [1, 0], 2, 2, 2)
  const C7 := Policy.State(3, [3, 2], [-1, -1, 1, 0], [1, 3], [0], [1], 2, 2, 3)

  lemma CStart()
    ensures Policy.Create(2, 3, 3) == C0
  {
  }

  /** Page 1 misses and takes slot 0. */
  lemma CStep1()
    requires Policy.Inv(C0)
    ensures Policy.Reference(C0, 1) == C1
  {
  }

  /** Page 2 misses and takes slot 1. */
  lemma CStep2()
    requires Policy.Inv(C1)
    ensures Policy.Reference(C1, 2) == C2
  {
  }

  /** Page 1 has two references and moves to the front of cold. */
  lemma CStep3()
    requires Policy.Inv(C2)
    ensures Policy.Reference(C2, 1) == C3
  {
  }

  /** Page 2 has two references and moves to the front of cold. */
  lemma CStep4()
    requires Policy.Inv(C3)
    ensures Policy.Reference(C3, 2) == C4
  {
  }

  /** Page 1 reaches K = 3 references and moves to hot. */
  lemma CStep5()
    requires Policy.Inv(C4)
    ensures Policy.Reference(C4, 1) == C5
  {
  }

  /** Page 2 reaches K = 3 references and moves to hot; cold is empty. */
  lemma CStep6()
    requires Policy.Inv(C5)
    ensures Policy.Reference(C5, 2) == C6
  {
  }

  /** Page 3 misses; with cold empty the rear of hot, page 1, gives up slot 0. */
  lemma CStep7()
    requires Policy.Inv(C6)
    ensures Policy.Reference(C6, 3) == C7
  {
  }

  /** Both pages reach K = 3 references and turn hot, so cold is empty when
      page 3 arrives and the rear of hot, page 1, gives up its frame. Three
      faults. */
  lemma ScenarioC()
    ensures var m := Policy.Run(Policy.Create(2, 3, 3), [1, 2, 1, 2, 1, 2, 3]);
      m.frame == [3, 2] && m.faults == 3 && m.cold == [0] && m.hot == [1]
  {
    CStart();
    CFrom0();
  }

  // The run from each state of the trace on.
  lemma CFrom0()
    requires Policy.Inv(C0)
    ensures Policy.Run(C0, [1, 2, 1, 2, 1, 2, 3]) == C7
  {
    CStep1();
    Policy.RunStep(C0, [1, 2, 1, 2, 1, 2, 3]);
    assert [1, 2, 1, 2, 1, 2, 3][1..] == [2, 1, 2, 1, 2, 3];
    CFrom1();
  }

  lemma CFrom1()
    requires Policy.Inv(C1)
    ensures Policy.Run(C1, [2, 1, 2, 1, 2, 3]) == C7
  {
    CStep2();
    Policy.RunStep(C1, [2, 1, 2, 1, 2, 3]);
    assert [2, 1, 2, 1, 2, 3][1..] == [1, 2, 1, 2, 3];
    CFrom2();
  }

  lemma CFrom2()
    requires Policy.Inv(C2)
    ensures Policy.Run(C2, [1, 2, 1, 2, 3]) == C7
  {
    CStep3();
    Policy.RunStep(C2, [1, 2, 1, 2, 3]);
    assert [1, 2, 1, 2, 3][1..] == [2, 1, 2, 3];
    CFrom3();
  }

  lemma CFrom3()
    requires Policy.Inv(C3)
    ensures Policy.Run(C3, [2, 1, 2, 3]) == C7
  {
    CStep4();
    Policy.RunStep(C3, [2, 1, 2, 3]);
    assert [2, 1, 2, 3][1..] == [1, 2, 3];
    CFrom4();
  }

  lemma CFrom4()
    requires Policy.Inv(C4)
    ensures Policy.Run(C4, [1, 2, 3]) == C7
  {
    CStep5();
    Policy.RunStep(C4, [1, 2, 3]);
    assert [1, 2, 3][1..] == [2, 3];
    CFrom5();
  }

  lemma CFrom5()
    requires Policy.Inv(C5)
    ensures Policy.Run(C5, [2, 3]) == C7
  {
    CStep6();
    Policy.RunStep(C5, [2, 3]);
    assert [2, 3][1..] == [3];
    CFrom6();
  }

  lemma CFrom6()
    requires Policy.Inv(C6)
    ensures Policy.Run(C6, [3]) == C7
  {
    CStep7();
    Policy.RunStep(C6, [3]);
    assert [3][1..] == [];
  }
}
