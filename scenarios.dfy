/**
 * Worked sessions: concrete sequences of dispatches and the states they reach.
 */
module Scenarios {
  import opened Wrappers
  import opened StableSort
  import opened Reducer
  import TurnOrder

  const A := Character(10, "Ana", 8, 100, false, [])
  const B := Character(15, "Orc", 0, 200, true, [])
  const BOB := Character(10, "Bob", 5, 300, false, [])

  /** Typing 1, 0, "Ana" and 8 into the empty session and adding a player character. */
  lemma EnterAna()
    ensures var s1 := Reduce(EMPTY, WriteInputInitiative('1'), 0).value;
      var s2 := Reduce(s1, WriteInputInitiative('0'), 0).value;
      var s3 := Reduce(s2, WriteInputName("Ana"), 0).value;
      var s4 := Reduce(s3, WriteInputHitpoints('8'), 0).value;
      s4 == State([], None, 10, "Ana", 8)
    ensures Reduce(State([], None, 10, "Ana", 8), AddInitiative(false), 100) == Ok(State([A], None, 0, "", 0))
  {
    var s1 := Reduce(EMPTY, WriteInputInitiative('1'), 0).value;
    assert s1.inputInitiative == 1;
    var s2 := Reduce(s1, WriteInputInitiative('0'), 0).value;
    assert s2.inputInitiative == 10;
    assert Sort([A], Value) == [A];
  }

  /** Typing 1, 5 and "Orc" and adding a monster puts it ahead of Ana. */
  lemma EnterOrc()
    ensures var s6 := Reduce(State([A], None, 0, "", 0), WriteInputInitiative('1'), 0).value;
      var s7 := Reduce(s6, WriteInputInitiative('5'), 0).value;
      var s8 := Reduce(s7, WriteInputName("Orc"), 0).value;
      s8 == State([A], None, 15, "Orc", 0)
    ensures Reduce(State([A], None, 15, "Orc", 0), AddInitiative(true), 200) == Ok(State([B, A], None, 0, "", 0))
  {
    var s6 := Reduce(State([A], None, 0, "", 0), WriteInputInitiative('1'), 0).value;
    assert s6.inputInitiative == 1;
    var s7 := Reduce(s6, WriteInputInitiative('5'), 0).value;
    assert s7.inputInitiative == 15;
    assert [A, B][..1] == [A];
    assert Sort([A], Value) == [A];
    assert Sort([A, B], Value) == Insert([A], B, Value) == [B, A];
  }

  /**
   * With [Orc, Ana] in the list, `next` gives [Ana, Orc]. Selecting Ana copies
   * her into the buffers; taking 5 hit points leaves her with 3 and the orc
   * untouched; removing a "poisoned" condition she does not have changes nothing.
   */
  lemma PlayRound()
    ensures Reduce(State([B, A], None, 0, "", 0), Next, 0) == Ok(State([A, B], None, 0, "", 0))
    ensures Reduce(State([A, B], None, 0, "", 0), Select(100), 0) == Ok(State([A, B], Some(100), 10, "Ana", 8))
    ensures Reduce(State([A, B], Some(100), 10, "Ana", 8), EditHitpoints(-5), 0)
         == Ok(State([A.(hitpoints := 3), B], Some(100), 10, "Ana", 8))
    ensures var s := State([A.(hitpoints := 3), B], Some(100), 10, "Ana", 8);
      Reduce(s, RemoveCondition(Condition("poisoned", map[])), 0) == Ok(s)
  {
    assert [B, A][1..] == [A];
    TurnOrder.NextShape([B, A]);
    assert TurnOrder.Next([B, A]) == [A, B];
    assert Find([A, B], 100) == Some(A);
    var l := UpdateSelected([A, B], Some(100), AddHitpoints(-5));
    assert l[0] == A.(hitpoints := 3) && l[1] == B;
    assert l == [A.(hitpoints := 3), B];
    var m := [A.(hitpoints := 3), B];
    var l' := UpdateSelected(m, Some(100), DropCondition("poisoned"));
    assert l'[0] == m[0] && l'[1] == m[1];
    assert l' == m;
  }

  /**
   * `addInitiative` sorts the whole list again, so it undoes a rotation: after
   * `next` has put Ana (10) ahead of the orc (15), adding Bob (10) puts the orc
   * back in front, and Bob behind Ana, who has the same initiative.
   */
  lemma AddUndoesRotation()
    ensures Reduce(State([A, B], None, 10, "Bob", 5), AddInitiative(false), 300)
         == Ok(State([B, A, BOB], None, 0, "", 0))
  {
    var s := State([A, B], None, 10, "Bob", 5);
    var r := Reduce(s, AddInitiative(false), 300);
    assert NewCharacter(s, false, 300) == BOB;
    assert r == Ok(s.(initiatives := Sort([A, B] + [BOB], Value), inputInitiative := 0, inputName := "", inputHitpoints := 0));
    SortWithBob();
  }

  /** The sort of [Ana, Orc, Bob] by initiative. */
  lemma SortWithBob()
    ensures Sort([A, B] + [BOB], Value) == [B, A, BOB]
  {
    var l := [A, B] + [BOB];
    assert l[..2] == [A, B] && l[2] == BOB;
    assert [A, B][..1] == [A];
    assert Sort([A], Value) == [A];
    assert Sort([A, B], Value) == Insert([A], B, Value) == [B, A];
    InsertBehindAna();
  }

  /** Bob goes behind Orc and behind Ana, whose initiative equals his. */
  lemma InsertBehindAna()
    ensures Insert([B, A], BOB, Value) == [B, A, BOB]
  {
    assert [B, A][1..] == [A];
    assert [A][1..] == [];
    assert Insert([A], BOB, Value) == [A] + Insert([], BOB, Value) == [A, BOB];
  }

  /** Appending the digit 2 to a buffer holding 1 gives 12, not 3; to -5 gives -52; to 0 gives 2. */
  lemma DigitEntryConcatenates(s: State)
    ensures Reduce(s.(inputInitiative := 1), WriteInputInitiative('2'), 0).value.inputInitiative == 12
    ensures Reduce(s.(inputInitiative := -5), WriteInputInitiative('2'), 0).value.inputInitiative == -52
    ensures Reduce(s.(inputHitpoints := 0), WriteInputHitpoints('2'), 0).value.inputHitpoints == 2
  {
  }

  /**
   * Negating an empty initiative buffer and then typing 5 gives 5, not -5:
   * the buffer holds zero, whose text has no minus sign.
   */
  lemma NegatedZeroLosesSign(s: State)
    requires s.inputInitiative == 0
    ensures var t := Reduce(s, NegativeInputInitiative, 0).value;
      Reduce(t, WriteInputInitiative('5'), 0).value.inputInitiative == 5
  {
  }
}
