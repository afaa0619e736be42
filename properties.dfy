/**
 * What each action of the reducer does to the session, stated against the
 * reference definitions of the sort, the rotations, the filter and the
 * decimal buffers.
 */
module Properties {
  import opened Wrappers
  import opened Sequences
  import opened Decimal
  import opened StableSort
  import TurnOrder
  import opened Reducer

  // ---------------------------------------------------------------------------
  // addInitiative

  /**
   * `addInitiative` adds exactly one new character built from the buffers,
   * sorts the list into non-increasing initiative, keeps the prior order of
   * equal initiatives and puts the new character after the existing
   * characters with its initiative; it empties the buffers and keeps the selection.
   */
  lemma AddInitiativeInserts(s: State, monster: bool, now: Id)
    ensures Reduce(s, AddInitiative(monster), now).Ok?
    ensures var r := Reduce(s, AddInitiative(monster), now).value;
      var c := Character(s.inputInitiative, s.inputName, s.inputHitpoints, now, monster, []);
      && SortedDesc(r.initiatives, Value)
      && multiset(r.initiatives) == multiset(s.initiatives) + multiset{c}
      && (forall v :: KeyClass(r.initiatives, Value, v)
                      == KeyClass(s.initiatives, Value, v) + (if v == c.value then [c] else []))
      && r.selected == s.selected
      && r.inputInitiative == 0 && r.inputName == "" && r.inputHitpoints == 0
  {
    var c := NewCharacter(s, monster, now);
    var r := Reduce(s, AddInitiative(monster), now).value;
    assert r.initiatives == Sort(s.initiatives + [c], Value);
    SortAppended(s.initiatives, c, Value);
  }

  /**
   * The properties above determine the new list: any list that satisfies them
   * is the one `addInitiative` produces.
   */
  lemma AddInitiativeDetermined(s: State, monster: bool, now: Id, l: seq<Character>)
    requires SortedDesc(l, Value)
    requires forall v :: KeyClass(l, Value, v) == KeyClass(s.initiatives + [NewCharacter(s, monster, now)], Value, v)
    ensures Reduce(s, AddInitiative(monster), now).value.initiatives == l
  {
    SortCharacterization(s.initiatives + [NewCharacter(s, monster, now)], l, Value);
  }

  // ---------------------------------------------------------------------------
  // deleteAll, clean, loadState, sortInitiatives

  /** `deleteAll` empties the list, clears the selection and zeroes the buffers, whatever the state. */
  lemma DeleteAllResets(s: State, now: Id)
    ensures var r := Reduce(s, DeleteAll, now);
      && r.Ok? && r.value.initiatives == [] && r.value.selected == None
      && r.value.inputInitiative == 0 && r.value.inputName == "" && r.value.inputHitpoints == 0
  {
  }

  /** `clean` clears the selection and the buffers and leaves the list alone; `deleteAll` is `clean` of an emptied list. */
  lemma CleanClearsBuffers(s: State, now: Id)
    ensures var r := Reduce(s, Clean, now);
      && r.Ok? && r.value.initiatives == s.initiatives && r.value.selected == None
      && r.value.inputInitiative == 0 && r.value.inputName == "" && r.value.inputHitpoints == 0
    ensures Reduce(s, DeleteAll, now) == Reduce(s.(initiatives := []), Clean, now)
  {
  }

  /** `loadState` returns its payload verbatim; `sortInitiatives` replaces the list verbatim and nothing else. */
  lemma ReplacementsAreVerbatim(s: State, t: State, l: seq<Character>, now: Id)
    ensures Reduce(s, LoadState(t), now) == Ok(t)
    ensures var r := Reduce(s, SortInitiatives(l), now).value;
      && r.initiatives == l && r.selected == s.selected
      && r.inputInitiative == s.inputInitiative && r.inputName == s.inputName
      && r.inputHitpoints == s.inputHitpoints
  {
  }

  // ---------------------------------------------------------------------------
  // removeCharacter

  /**
   * `removeCharacter(v)` keeps exactly the characters whose id is not `v`,
   * each with its multiplicity, and no character carrying `v`. The
   * selection becomes `null` exactly when it was `v`; the buffers stay.
   */
  lemma RemoveCharacterFilters(s: State, v: Id, now: Id)
    ensures var r := Reduce(s, RemoveCharacter(v), now).value;
      && (forall c :: multiset(r.initiatives)[c] == if c.id != v then multiset(s.initiatives)[c] else 0)
      && |r.initiatives| == |s.initiatives| - |WithId(s.initiatives, v)|
      && (r.selected == None <==> s.selected == None || s.selected == Some(v))
      && (r.selected != None ==> r.selected == s.selected)
      && r.inputInitiative == s.inputInitiative && r.inputName == s.inputName
      && r.inputHitpoints == s.inputHitpoints
  {
    var r := Reduce(s, RemoveCharacter(v), now).value;
    assert r.initiatives == Filter(s.initiatives, IdIsNot(v));
    FilterMultiset(s.initiatives, IdIsNot(v));
    RemovedCount(s.initiatives, v);
  }

  /**
   * `removeCharacter` keeps the original order: removing from a concatenation
   * is concatenating the removals from each part.
   */
  lemma RemoveCharacterKeepsOrder(s: State, v: Id, now: Id, front: seq<Character>, back: seq<Character>)
    requires s.initiatives == front + back
    ensures Reduce(s, RemoveCharacter(v), now).value.initiatives
         == Reduce(s.(initiatives := front), RemoveCharacter(v), now).value.initiatives
          + Reduce(s.(initiatives := back), RemoveCharacter(v), now).value.initiatives
  {
    FilterConcat(front, back, IdIsNot(v));
  }

  /** The kept and the removed characters together are all of them. */
  lemma {:induction false} RemovedCount(l: seq<Character>, v: Id)
    ensures |Filter(l, IdIsNot(v))| + |WithId(l, v)| == |l|
  {
    if l != [] {
      RemovedCount(l[1..], v);
    }
  }

  /** No character carries an id that selects none. */
  lemma AbsentId(l: seq<Character>, v: Id)
    requires WithId(l, v) == []
    ensures forall i :: 0 <= i < |l| ==> l[i].id != v
  {
    FilterMembers(l, IdIs(v));
  }

  /** Removing the same id twice is removing it once. */
  lemma RemoveCharacterIdempotent(s: State, v: Id, now: Id)
    ensures var r := Reduce(s, RemoveCharacter(v), now).value;
      Reduce(r, RemoveCharacter(v), now) == Ok(r)
  {
    FilterIdempotent(s.initiatives, IdIsNot(v));
  }

  /** Removing an id nobody carries, while another id or none is selected, changes nothing. */
  lemma RemoveAbsentIsNoop(s: State, v: Id, now: Id)
    requires WithId(s.initiatives, v) == [] && s.selected != Some(v)
    ensures Reduce(s, RemoveCharacter(v), now) == Ok(s)
  {
    AbsentId(s.initiatives, v);
    FilterKeepsAll(s.initiatives, IdIsNot(v));
  }

  // ---------------------------------------------------------------------------
  // The input buffers

  /**
   * `writeInputInitiative(d)` and `writeInputHitpoints(d)` append `d` to the
   * decimal text of their buffer: `n` becomes `10n + d` when `n >= 0` and
   * `10n - d` when `n < 0`. Nothing else changes.
   */
  lemma WriteDigitAppends(s: State, d: Digit, now: Id)
    ensures var r := Reduce(s, WriteInputInitiative(d), now).value;
      && r.inputInitiative == (if s.inputInitiative >= 0 then s.inputInitiative * 10 + DigitValue(d)
                               else s.inputInitiative * 10 - DigitValue(d))
      && r == s.(inputInitiative := r.inputInitiative)
    ensures var r := Reduce(s, WriteInputHitpoints(d), now).value;
      && r.inputHitpoints == (if s.inputHitpoints >= 0 then s.inputHitpoints * 10 + DigitValue(d)
                              else s.inputHitpoints * 10 - DigitValue(d))
      && r == s.(inputHitpoints := r.inputHitpoints)
  {
  }

  /** The digit entry is the text concatenation: `String(result) == String(n) + d` unless `n` is zero. */
  lemma WriteDigitIsConcatenation(s: State, d: Digit, now: Id)
    ensures s.inputInitiative != 0 ==>
      Show(Reduce(s, WriteInputInitiative(d), now).value.inputInitiative) == Show(s.inputInitiative) + [d]
    ensures s.inputHitpoints != 0 ==>
      Show(Reduce(s, WriteInputHitpoints(d), now).value.inputHitpoints) == Show(s.inputHitpoints) + [d]
  {
    if s.inputInitiative != 0 {
      assert Reduce(s, WriteInputInitiative(d), now).value.inputInitiative == AppendDigit(s.inputInitiative, d);
      AppendDigitText(s.inputInitiative, d);
    }
    if s.inputHitpoints != 0 {
      assert Reduce(s, WriteInputHitpoints(d), now).value.inputHitpoints == AppendDigit(s.inputHitpoints, d);
      AppendDigitText(s.inputHitpoints, d);
    }
  }

  /** `writeInputName(t)` appends the text `t` to the name buffer and changes nothing else. */
  lemma WriteNameAppends(s: State, t: string, now: Id)
    ensures var r := Reduce(s, WriteInputName(t), now).value;
      && r.inputName == s.inputName + t && r.inputName[..|s.inputName|] == s.inputName
      && r == s.(inputName := r.inputName)
  {
  }

  /** `deleteInputName` removes exactly the last character; an empty name stays empty. */
  lemma DeleteNameDropsLast(s: State, now: Id)
    ensures var r := Reduce(s, DeleteInputName, now).value;
      && (s.inputName == [] ==> r.inputName == [])
      && (s.inputName != [] ==> r.inputName + [s.inputName[|s.inputName| - 1]] == s.inputName)
      && r == s.(inputName := r.inputName)
  {
    SliceDropLast(s.inputName);
  }

  /** `negativeInputInitiative` flips the sign of the buffer, and twice is the identity. */
  lemma NegateInvolutive(s: State, now: Id)
    ensures var r := Reduce(s, NegativeInputInitiative, now).value;
      && r.inputInitiative + s.inputInitiative == 0
      && r == s.(inputInitiative := r.inputInitiative)
      && Reduce(r, NegativeInputInitiative, now) == Ok(s)
  {
  }

  /** `deleteInputInitiative` and `deleteInputHitpoints` zero their buffer and touch nothing else. */
  lemma DeleteNumbersZero(s: State, now: Id)
    ensures Reduce(s, DeleteInputInitiative, now) == Ok(s.(inputInitiative := 0))
    ensures Reduce(s, DeleteInputHitpoints, now) == Ok(s.(inputHitpoints := 0))
    ensures Reduce(Reduce(s, DeleteInputInitiative, now).value, DeleteInputInitiative, now)
         == Reduce(s, DeleteInputInitiative, now)
    ensures Reduce(Reduce(s, DeleteInputHitpoints, now).value, DeleteInputHitpoints, now)
         == Reduce(s, DeleteInputHitpoints, now)
  {
  }

  // ---------------------------------------------------------------------------
  // next and back

  /** `back` undoes `next` on the whole state. */
  lemma BackUndoesNext(s: State, now: Id)
    ensures Reduce(Reduce(s, Next, now).value, Back, now) == Ok(s)
  {
    TurnOrder.BackNext(s.initiatives);
  }

  /** `next` undoes `back` on the whole state. */
  lemma NextUndoesBack(s: State, now: Id)
    ensures Reduce(Reduce(s, Back, now).value, Next, now) == Ok(s)
  {
    TurnOrder.NextBack(s.initiatives);
  }

  /**
   * `next` moves the head of the turn order to its tail: a permutation that
   * leaves the empty list alone and changes nothing but the list.
   */
  lemma NextRotates(s: State, now: Id)
    ensures var r := Reduce(s, Next, now).value;
      && multiset(r.initiatives) == multiset(s.initiatives) && |r.initiatives| == |s.initiatives|
      && (s.initiatives == [] ==> r.initiatives == [])
      && (s.initiatives != [] ==> r.initiatives == s.initiatives[1..] + [s.initiatives[0]])
      && r == s.(initiatives := r.initiatives)
  {
    var l := s.initiatives;
    var r := Reduce(s, Next, now).value;
    assert r == s.(initiatives := TurnOrder.Next(l));
    TurnOrder.RotationsPermute(l);
    TurnOrder.NextShape(l);
  }

  /**
   * `back` moves the tail of the turn order to its head: a permutation that
   * leaves the empty list alone and changes nothing but the list.
   */
  lemma BackRotates(s: State, now: Id)
    ensures var r := Reduce(s, Back, now).value;
      && multiset(r.initiatives) == multiset(s.initiatives) && |r.initiatives| == |s.initiatives|
      && (s.initiatives == [] ==> r.initiatives == [])
      && (s.initiatives != [] ==> r.initiatives == [s.initiatives[|s.initiatives| - 1]] + s.initiatives[..|s.initiatives| - 1])
      && r == s.(initiatives := r.initiatives)
  {
    var l := s.initiatives;
    var r := Reduce(s, Back, now).value;
    assert r == s.(initiatives := TurnOrder.Back(l));
    TurnOrder.RotationsPermute(l);
    TurnOrder.BackShape(l);
  }

  // ---------------------------------------------------------------------------
  // select

  /**
   * `select(v)` fails exactly when no character carries `v`; otherwise it
   * selects `v` and copies the initiative, name and hit points of the first
   * character carrying `v` into the buffers, leaving the list alone.
   */
  lemma SelectCopies(s: State, v: Id, now: Id)
    ensures Reduce(s, Select(v), now).Err? <==> WithId(s.initiatives, v) == []
    ensures WithId(s.initiatives, v) != [] ==>
      var c := WithId(s.initiatives, v)[0];
      && c in s.initiatives && c.id == v
      && Reduce(s, Select(v), now)
         == Ok(State(s.initiatives, Some(v), c.value, c.name, c.hitpoints))
  {
    FilterMembers(s.initiatives, IdIs(v));
  }

  // ---------------------------------------------------------------------------
  // editHitpoints, editCondition, removeCondition

  /** No character matches the selection: no id is selected, or none carries it. */
  predicate NoMatch(s: State) {
    s.selected == None || WithId(s.initiatives, s.selected.value) == []
  }

  /** With nothing to match, an update of the selected characters is the identity. */
  lemma UpdateNoMatch(s: State, f: Character -> Character)
    requires NoMatch(s)
    ensures UpdateSelected(s.initiatives, s.selected, f) == s.initiatives
  {
    if s.selected.Some? {
      AbsentId(s.initiatives, s.selected.value);
    }
  }

  /**
   * `editHitpoints(delta)` adds `delta` to the hit points of the characters
   * carrying the selected id, with no bound: every other character and every
   * other field is unchanged, and so are length and order.
   */
  lemma EditHitpointsOnlySelected(s: State, delta: int, now: Id)
    ensures var r := Reduce(s, EditHitpoints(delta), now).value;
      && |r.initiatives| == |s.initiatives|
      && (forall i :: 0 <= i < |s.initiatives| && s.selected == Some(s.initiatives[i].id) ==>
            r.initiatives[i].hitpoints == s.initiatives[i].hitpoints + delta
            && r.initiatives[i] == s.initiatives[i].(hitpoints := r.initiatives[i].hitpoints))
      && (forall i :: 0 <= i < |s.initiatives| && s.selected != Some(s.initiatives[i].id) ==>
            r.initiatives[i] == s.initiatives[i])
      && r == s.(initiatives := r.initiatives)
    ensures NoMatch(s) ==> Reduce(s, EditHitpoints(delta), now) == Ok(s)
  {
    if NoMatch(s) {
      UpdateNoMatch(s, AddHitpoints(delta));
    }
  }

  /**
   * `editCondition(cond)` appends `cond` at the end of the conditions of the
   * selected characters, duplicates allowed; nothing else changes.
   */
  lemma EditConditionAppends(s: State, cond: Condition, now: Id)
    ensures var r := Reduce(s, EditCondition(cond), now).value;
      && |r.initiatives| == |s.initiatives|
      && (forall i :: 0 <= i < |s.initiatives| && s.selected == Some(s.initiatives[i].id) ==>
            r.initiatives[i].conditions == s.initiatives[i].conditions + [cond]
            && r.initiatives[i] == s.initiatives[i].(conditions := r.initiatives[i].conditions))
      && (forall i :: 0 <= i < |s.initiatives| && s.selected != Some(s.initiatives[i].id) ==>
            r.initiatives[i] == s.initiatives[i])
      && r == s.(initiatives := r.initiatives)
    ensures NoMatch(s) ==> Reduce(s, EditCondition(cond), now) == Ok(s)
  {
    if NoMatch(s) {
      UpdateNoMatch(s, AppendCondition(cond));
    }
  }

  /**
   * `removeCondition(cond)` keeps, in order, exactly the conditions of the
   * selected characters whose label differs from `cond.condition`; nothing
   * else changes.
   */
  lemma RemoveConditionFilters(s: State, cond: Condition, now: Id)
    ensures var r := Reduce(s, RemoveCondition(cond), now).value;
      && |r.initiatives| == |s.initiatives|
      && (forall i :: 0 <= i < |s.initiatives| && s.selected == Some(s.initiatives[i].id) ==>
            var before, after := s.initiatives[i].conditions, r.initiatives[i].conditions;
            && after == Filter(before, LabelIsNot(cond.condition))
            && (forall k :: 0 <= k < |after| ==> after[k].condition != cond.condition && after[k] in before)
            && (forall k :: 0 <= k < |before| && before[k].condition != cond.condition ==> before[k] in after)
            && (forall x :: multiset(after)[x] == if x.condition != cond.condition then multiset(before)[x] else 0)
            && r.initiatives[i] == s.initiatives[i].(conditions := after))
      && (forall i :: 0 <= i < |s.initiatives| && s.selected != Some(s.initiatives[i].id) ==>
            r.initiatives[i] == s.initiatives[i])
      && r == s.(initiatives := r.initiatives)
    ensures NoMatch(s) ==> Reduce(s, RemoveCondition(cond), now) == Ok(s)
  {
    var r := Reduce(s, RemoveCondition(cond), now);
    assert r == Ok(s.(initiatives := UpdateSelected(s.initiatives, s.selected, DropCondition(cond.condition))));
    forall i | 0 <= i < |s.initiatives|
      ensures var before := s.initiatives[i].conditions;
        var after := Filter(before, LabelIsNot(cond.condition));
        && (forall k :: 0 <= k < |after| ==> after[k].condition != cond.condition && after[k] in before)
        && (forall k :: 0 <= k < |before| && before[k].condition != cond.condition ==> before[k] in after)
        && (forall x :: multiset(after)[x] == if x.condition != cond.condition then multiset(before)[x] else 0)
    {
      FilterMembers(s.initiatives[i].conditions, LabelIsNot(cond.condition));
      FilterMultiset(s.initiatives[i].conditions, LabelIsNot(cond.condition));
    }
    if NoMatch(s) {
      UpdateNoMatch(s, DropCondition(cond.condition));
    }
  }

  /** Removing a label no condition of the selected characters carries changes nothing. */
  lemma RemoveConditionAbsentIsNoop(s: State, cond: Condition, now: Id)
    requires forall i, k ::
               (0 <= i < |s.initiatives| && s.selected == Some(s.initiatives[i].id)
                && 0 <= k < |s.initiatives[i].conditions|)
               ==> s.initiatives[i].conditions[k].condition != cond.condition
    ensures Reduce(s, RemoveCondition(cond), now) == Ok(s)
  {
    var l := s.initiatives;
    var r := UpdateSelected(l, s.selected, DropCondition(cond.condition));
    forall i | 0 <= i < |l|
      ensures r[i] == l[i]
    {
      if s.selected == Some(l[i].id) {
        FilterKeepsAll(l[i].conditions, LabelIsNot(cond.condition));
      }
    }
    assert r == l;
  }

  /** Removing the same label twice is removing it once. */
  lemma RemoveConditionIdempotent(s: State, cond: Condition, now: Id)
    ensures var r := Reduce(s, RemoveCondition(cond), now).value;
      Reduce(r, RemoveCondition(cond), now) == Ok(r)
  {
    var l := s.initiatives;
    var f := DropCondition(cond.condition);
    var r := UpdateSelected(l, s.selected, f);
    var r2 := UpdateSelected(r, s.selected, f);
    forall i | 0 <= i < |l|
      ensures r2[i] == r[i]
    {
      if s.selected == Some(l[i].id) {
        FilterIdempotent(l[i].conditions, LabelIsNot(cond.condition));
      }
    }
    assert r2 == r;
  }
}
