/**
 * The session reducer of the combat tracker: the state of one session (the
 * turn order of the characters, the selected character and three input
 * buffers), the actions the interface dispatches, and the pure function that
 * computes the next state from the current state and one action.
 */
module Reducer {
  import opened Wrappers
  import opened Sequences
  import opened Decimal
  import opened StableSort
  import TurnOrder

  /** Character ids are creation timestamps in milliseconds. */
  type Id = int

  /** A status condition: the `condition` label it is keyed by, and the other properties it was added with. */
  datatype Condition = Condition(condition: string, properties: map<string, string>)

  /** One combatant; `value` is its initiative. */
  datatype Character = Character(
    value: int,
    name: string,
    hitpoints: int,
    id: Id,
    monster: bool,
    conditions: seq<Condition>)

  /** The session: `initiatives` is the turn order, the `input…` fields are the entry buffers. */
  datatype State = State(
    initiatives: seq<Character>,
    selected: Option<Id>,
    inputInitiative: int,
    inputName: string,
    inputHitpoints: int)

  /** One constructor per action type the reducer handles; no other action can be built. */
  datatype Action =
    | AddInitiative(monster: bool)
    | DeleteAll
    | LoadState(state: State)
    | SortInitiatives(initiatives: seq<Character>)
    | RemoveCharacter(id: Id)
    | WriteInputInitiative(digit: Digit)
    | WriteInputName(text: string)
    | WriteInputHitpoints(digit: Digit)
    | DeleteInputInitiative
    | DeleteInputHitpoints
    | DeleteInputName
    | NegativeInputInitiative
    | Next
    | Back
    | Select(id: Id)
    | EditHitpoints(delta: int)
    | EditCondition(added: Condition)
    | RemoveCondition(removed: Condition)
    | Clean

  /** Selecting an id that no character carries: the source reads a field of `undefined` and throws. */
  datatype Error = SelectionNotFound(id: Id)

  /** The state `deleteAll` produces. */
  const EMPTY := State([], None, 0, "", 0)

  /** The sort key of the turn order. */
  function Value(c: Character): (v: int) {
    c.value
  }

  function IdIs(id: Id): (p: Character -> bool) {
    (c: Character) => c.id == id
  }

  function IdIsNot(id: Id): (p: Character -> bool) {
    (c: Character) => c.id != id
  }

  function LabelIsNot(key: string): (p: Condition -> bool) {
    (cond: Condition) => cond.condition != key
  }

  /** The characters that carry `id`, in turn order. */
  function WithId(l: seq<Character>, id: Id): (r: seq<Character>) {
    Filter(l, IdIs(id))
  }

  /** `l.find(({ id }) => id === v)`: the first character carrying `v`, if any. */
  function Find(l: seq<Character>, v: Id): (r: Option<Character>)
    ensures r == if WithId(l, v) == [] then None else Some(WithId(l, v)[0])
  {
    if l == [] then None
    else if l[0].id == v then Some(l[0])
    else Find(l[1..], v)
  }

  /**
   * `l.map(ini => ini.id === selected ? f(copy of ini) : ini)`: apply `f` to the
   * characters whose id is the selected one. A `null` selection matches none.
   */
  function UpdateSelected(l: seq<Character>, selected: Option<Id>, f: Character -> Character): (r: seq<Character>)
    ensures |r| == |l|
    ensures forall i :: 0 <= i < |l| ==> r[i] == if selected == Some(l[i].id) then f(l[i]) else l[i]
  {
    if l == [] then []
    else [if selected == Some(l[0].id) then f(l[0]) else l[0]] + UpdateSelected(l[1..], selected, f)
  }

  function AddHitpoints(delta: int): (f: Character -> Character) {
    (c: Character) => c.(hitpoints := c.hitpoints + delta)
  }

  function AppendCondition(added: Condition): (f: Character -> Character) {
    (c: Character) => c.(conditions := c.conditions + [added])
  }

  function DropCondition(key: string): (f: Character -> Character) {
    (c: Character) => c.(conditions := Filter(c.conditions, LabelIsNot(key)))
  }

  /** The character `addInitiative` creates from the input buffers; `now` stands for `Date.now()`. */
  function NewCharacter(s: State, monster: bool, now: Id): (c: Character) {
    Character(s.inputInitiative, s.inputName, s.inputHitpoints, now, monster, [])
  }

  /**
   * The reducer. `now` is the clock reading `addInitiative` uses as the new
   * character's id. The only failure is selecting an id that is not in the list.
   */
  function Reduce(s: State, a: Action, now: Id): (r: Result<State, Error>)
    ensures r.Err? <==> a.Select? && WithId(s.initiatives, a.id) == []
    ensures r.Err? ==> r.error == SelectionNotFound(a.id)
  {
    match a
    case AddInitiative(monster) =>
      var initiatives := Sort(s.initiatives + [NewCharacter(s, monster, now)], Value);
      Ok(s.(initiatives := initiatives, inputInitiative := 0, inputName := "", inputHitpoints := 0))
    case DeleteAll =>
      Ok(EMPTY)
    case LoadState(state) =>
      Ok(state)
    case SortInitiatives(initiatives) =>
      Ok(s.(initiatives := initiatives))
    case RemoveCharacter(id) =>
      Ok(s.(initiatives := Filter(s.initiatives, IdIsNot(id)),
            selected := if s.selected == Some(id) then None else s.selected))
    case WriteInputInitiative(digit) =>
      Ok(s.(inputInitiative := AppendDigit(s.inputInitiative, digit)))
    case WriteInputName(text) =>
      Ok(s.(inputName := s.inputName + text))
    case WriteInputHitpoints(digit) =>
      Ok(s.(inputHitpoints := AppendDigit(s.inputHitpoints, digit)))
    case DeleteInputInitiative =>
      Ok(s.(inputInitiative := 0))
    case DeleteInputHitpoints =>
      Ok(s.(inputHitpoints := 0))
    case DeleteInputName =>
      Ok(s.(inputName := Slice(s.inputName, 0, -1)))
    case NegativeInputInitiative =>
      Ok(s.(inputInitiative := -s.inputInitiative))
    case Next =>
      Ok(s.(initiatives := TurnOrder.Next(s.initiatives)))
    case Back =>
      Ok(s.(initiatives := TurnOrder.Back(s.initiatives)))
    case Select(id) =>
      var found := Find(s.initiatives, id);
      if found.None? then Err(SelectionNotFound(id))
      else
        var c := found.value;
        Ok(s.(selected := Some(c.id), inputInitiative := c.value, inputName := c.name, inputHitpoints := c.hitpoints))
    case EditHitpoints(delta) =>
      Ok(s.(initiatives := UpdateSelected(s.initiatives, s.selected, AddHitpoints(delta))))
    case EditCondition(added) =>
      Ok(s.(initiatives := UpdateSelected(s.initiatives, s.selected, AppendCondition(added))))
    case RemoveCondition(removed) =>
      Ok(s.(initiatives := UpdateSelected(s.initiatives, s.selected, DropCondition(removed.condition))))
    case Clean =>
      Ok(s.(inputInitiative := 0, inputName := "", inputHitpoints := 0, selected := None))
  }
}
