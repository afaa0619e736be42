/**
 * The session invariant: ids are unique and the selection, when there is
 * one, names a character in the list. Every action keeps it, given a fresh
 * clock reading for `addInitiative` and valid payloads for the two actions
 * that replace state verbatim (the reducer does not check those).
 */
module Invariants {
  import opened Wrappers
  import opened Sequences
  import opened StableSort
  import TurnOrder
  import opened Reducer

  /** At most one character carries each id. */
  ghost predicate UniqueIds(l: seq<Character>) {
    forall id :: |WithId(l, id)| <= 1
  }

  /** A selected id is carried by some character. */
  ghost predicate SelectionPresent(s: State) {
    s.selected.Some? ==> WithId(s.initiatives, s.selected.value) != []
  }

  ghost predicate Valid(s: State) {
    UniqueIds(s.initiatives) && SelectionPresent(s)
  }

  /** What the caller of `Reduce` has to supply for the invariant to carry over. */
  ghost predicate Admissible(s: State, a: Action, now: Id) {
    && (a.AddInitiative? ==> WithId(s.initiatives, now) == [])
    && (a.LoadState? ==> Valid(a.state))
    && (a.SortInitiatives? ==> Valid(s.(initiatives := a.initiatives)))
  }

  /** Rearranging a list keeps, for each id, the number of characters carrying it. */
  lemma PermutationKeepsIds(a: seq<Character>, b: seq<Character>)
    requires multiset(a) == multiset(b)
    ensures forall id :: |WithId(a, id)| == |WithId(b, id)|
  {
    forall id
      ensures |WithId(a, id)| == |WithId(b, id)|
    {
      FilterPermutation(a, b, IdIs(id));
    }
  }

  /** An update that keeps every id keeps, for each id, the number of characters carrying it. */
  lemma UpdateKeepsIds(l: seq<Character>, selected: Option<Id>, f: Character -> Character)
    requires forall c :: f(c).id == c.id
    ensures forall id :: |WithId(UpdateSelected(l, selected, f), id)| == |WithId(l, id)|
  {
    var r := UpdateSelected(l, selected, f);
    forall id
      ensures |WithId(r, id)| == |WithId(l, id)|
    {
      FilterLengthPointwise(r, IdIs(id), l, IdIs(id));
    }
  }

  /** Adding a character with a fresh id keeps the ids unique and every id present. */
  lemma AddKeepsIds(l: seq<Character>, c: Character)
    requires UniqueIds(l) && WithId(l, c.id) == []
    ensures forall id :: |WithId(l, id)| <= |WithId(l + [c], id)| <= 1
  {
    forall id
      ensures |WithId(l, id)| <= |WithId(l + [c], id)| <= 1
    {
      FilterConcat(l, [c], IdIs(id));
    }
  }

  /** After removing `v`, an id other than `v` is carried as often as before, and `v` not at all. */
  lemma RemoveKeepsIds(l: seq<Character>, v: Id)
    ensures forall id :: WithId(Filter(l, IdIsNot(v)), id) == if id == v then [] else WithId(l, id)
  {
    forall id
      ensures WithId(Filter(l, IdIsNot(v)), id) == if id == v then [] else WithId(l, id)
    {
      FilterCommute(l, IdIsNot(v), IdIs(id));
      var w := WithId(l, id);
      FilterMembers(l, IdIs(id));
      if id == v {
        FilterKeepsNone(w, IdIsNot(v));
      } else {
        FilterKeepsAll(w, IdIsNot(v));
      }
    }
  }

  /** `addInitiative` with a fresh clock reading keeps the invariant. */
  lemma AddPreservesValid(s: State, monster: bool, now: Id)
    requires Valid(s) && WithId(s.initiatives, now) == []
    ensures Valid(Reduce(s, AddInitiative(monster), now).value)
  {
    var l := s.initiatives;
    var c := NewCharacter(s, monster, now);
    var r := Reduce(s, AddInitiative(monster), now).value;
    assert r == s.(initiatives := Sort(l + [c], Value), inputInitiative := 0, inputName := "", inputHitpoints := 0);
    AddKeepsIds(l, c);
    PermutationKeepsIds(Sort(l + [c], Value), l + [c]);
  }

  /** `removeCharacter` keeps the invariant: a selection of the removed id is cleared. */
  lemma RemovePreservesValid(s: State, v: Id, now: Id)
    requires Valid(s)
    ensures Valid(Reduce(s, RemoveCharacter(v), now).value)
  {
    var r := Reduce(s, RemoveCharacter(v), now).value;
    assert r.initiatives == Filter(s.initiatives, IdIsNot(v));
    RemoveKeepsIds(s.initiatives, v);
  }

  /** Replacing the list by a rearrangement of it keeps the invariant. */
  lemma RearrangePreservesValid(s: State, l: seq<Character>)
    requires Valid(s) && multiset(l) == multiset(s.initiatives)
    ensures Valid(s.(initiatives := l))
  {
    PermutationKeepsIds(l, s.initiatives);
  }

  /** `next` keeps the invariant. */
  lemma NextPreservesValid(s: State, now: Id)
    requires Valid(s)
    ensures Valid(Reduce(s, Next, now).value)
  {
    var l := s.initiatives;
    var r := Reduce(s, Next, now).value;
    assert r == s.(initiatives := TurnOrder.Next(l));
    TurnOrder.RotationsPermute(l);
    RearrangePreservesValid(s, TurnOrder.Next(l));
  }

  /** `back` keeps the invariant. */
  lemma BackPreservesValid(s: State, now: Id)
    requires Valid(s)
    ensures Valid(Reduce(s, Back, now).value)
  {
    var l := s.initiatives;
    var r := Reduce(s, Back, now).value;
    assert r == s.(initiatives := TurnOrder.Back(l));
    TurnOrder.RotationsPermute(l);
    RearrangePreservesValid(s, TurnOrder.Back(l));
  }

  /** A successful `select` keeps the invariant: it selects an id that is present. */
  lemma SelectPreservesValid(s: State, v: Id, now: Id)
    requires Valid(s)
    ensures Reduce(s, Select(v), now).Ok? ==> Valid(Reduce(s, Select(v), now).value)
  {
    var l := s.initiatives;
    FilterMembers(l, IdIs(v));
  }

  /** The three edits of the selected character keep the invariant: they change no id. */
  lemma EditPreservesValid(s: State, a: Action, now: Id)
    requires Valid(s) && (a.EditHitpoints? || a.EditCondition? || a.RemoveCondition?)
    ensures Valid(Reduce(s, a, now).value)
  {
    var l := s.initiatives;
    var f := match a
      case EditHitpoints(delta) => AddHitpoints(delta)
      case EditCondition(added) => AppendCondition(added)
      case RemoveCondition(removed) => DropCondition(removed.condition);
    var r := Reduce(s, a, now).value;
    assert r == s.(initiatives := UpdateSelected(l, s.selected, f));
    UpdateKeepsIds(l, s.selected, f);
  }

  /** Every action keeps the session invariant. */
  lemma ReducePreservesValid(s: State, a: Action, now: Id)
    requires Valid(s) && Admissible(s, a, now)
    ensures Reduce(s, a, now).Ok? ==> Valid(Reduce(s, a, now).value)
  {
    match a
    case AddInitiative(monster) => AddPreservesValid(s, monster, now);
    case RemoveCharacter(v) => RemovePreservesValid(s, v, now);
    case Next => NextPreservesValid(s, now);
    case Back => BackPreservesValid(s, now);
    case Select(v) => SelectPreservesValid(s, v, now);
    case EditHitpoints(_) => EditPreservesValid(s, a, now);
    case EditCondition(_) => EditPreservesValid(s, a, now);
    case RemoveCondition(_) => EditPreservesValid(s, a, now);
    case _ =>
  }

  /** One dispatch: an action and the clock reading at the time it is handled. */
  datatype Dispatch = Dispatch(action: Action, now: Id)

  /** Dispatching actions one after another; the first failure ends the run. */
  function Run(s: State, ds: seq<Dispatch>): (r: Result<State, Error>)
    decreases |ds|
  {
    if ds == [] then Ok(s)
    else
      var step := Reduce(s, ds[0].action, ds[0].now);
      if step.Err? then step else Run(step.value, ds[1..])
  }

  /** Every dispatch of the run is admissible in the state it is applied to. */
  ghost predicate AdmissibleRun(s: State, ds: seq<Dispatch>)
    decreases |ds|
  {
    ds == [] ||
    (Admissible(s, ds[0].action, ds[0].now) &&
     var step := Reduce(s, ds[0].action, ds[0].now);
     step.Ok? ==> AdmissibleRun(step.value, ds[1..]))
  }

  /** A run of admissible dispatches from a valid state ends, if it succeeds, in a valid state. */
  lemma {:induction false} RunPreservesValid(s: State, ds: seq<Dispatch>)
    requires Valid(s) && AdmissibleRun(s, ds)
    ensures Run(s, ds).Ok? ==> Valid(Run(s, ds).value)
    decreases |ds|
  {
    if ds != [] {
      ReducePreservesValid(s, ds[0].action, ds[0].now);
      var step := Reduce(s, ds[0].action, ds[0].now);
      if step.Ok? {
        RunPreservesValid(step.value, ds[1..]);
      }
    }
  }

  /** The empty session is valid. */
  lemma EmptyIsValid()
    ensures Valid(EMPTY)
  {
  }
}
