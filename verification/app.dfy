/**
 The screen's state machine: the to-do list together with the text typed
 into the input box, and the handlers the screen wires to its controls.
 The random id the app draws for a new task and the user's answer to the
 "Clear Todos" dialog are inputs of the handlers.
 */
module App {
  import opened TodoList

  datatype Option<T> = None | Some(value: T)

  /** A blocking notice with a title and a message. */
  datatype Alert = Alert(title: string, message: string)

  /** The notice shown when "add" is pressed with an empty input box. */
  const EmptyInputAlert: Alert := Alert("Error", "Write something")

  /** The two buttons of the "Clear Todos" confirmation; dismissing the
      dialog without pressing a button has the effect of `No`. */
  datatype Choice = Yes | No

  /** Everything the screen holds: the ordered list and the pending input. */
  datatype State = State(todos: seq<Todo>, inputText: string)

  /** The state the screen starts in: no tasks, empty input. Loading the
      stored tasks on mount is not part of this model, so this is the state
      after a launch with nothing stored. */
  const Initial: State := State([], "")

  /** What an "add" press produces: the next state and the notice, if any. */
  datatype Reaction = Reaction(state: State, alert: Option<Alert>)

  /** Typing into the input box replaces the pending text and nothing else. */
  function SetInputText(s: State, text: string): (r: State)
    ensures r.todos == s.todos
    ensures r.inputText == text
  {
    s.(inputText := text)
  }

  /** Pressing "add": an input that is exactly empty is refused with a
      notice; anything else, blanks included, becomes a new incomplete task
      at the end of the list and the input box is emptied. */
  function AddTodo(s: State, newId: Id): (r: Reaction)
    ensures r.alert.Some? <==> s.inputText == ""
    ensures s.inputText == "" ==> r.state == s && r.alert == Some(EmptyInputAlert)
    ensures s.inputText != "" ==>
              && |r.state.todos| == |s.todos| + 1
              && r.state.todos[..|s.todos|] == s.todos
              && r.state.todos[|s.todos|] == Todo(newId, s.inputText, false)
              && r.state.inputText == ""
  {
    if s.inputText == "" then
      Reaction(s, Some(EmptyInputAlert))
    else
      var newTodo := Todo(newId, s.inputText, false);
      Reaction(State(s.todos + [newTodo], ""), None)
  }

  /** Answering the "Clear Todos" dialog: `Yes` empties the list, `No`
      leaves it; the input box is never touched. */
  function ClearTodos(s: State, choice: Choice): (r: State)
    ensures r.inputText == s.inputText
    ensures choice == Yes ==> r.todos == []
    ensures choice == No ==> r == s
  {
    match choice
    case Yes => s.(todos := [])
    case No => s
  }

  /** The user intents the screen reacts to. */
  datatype Event =
    | ChangeText(text: string)
    | PressAdd(newId: Id)
    | PressDone(id: Id)
    | PressDelete(id: Id)
    | AnswerClear(choice: Choice)

  /** One intent handled to completion: typing goes to the input box, the
      add button to `AddTodo`, each item's "done" and "delete" buttons to
      the list operations with that item's id, and the header's clear button
      to the confirmation dialog. Only typing and "add" touch the input box,
      typing never touches the list, and only "add" can lengthen it. */
  function Step(s: State, e: Event): (r: State)
    ensures !e.ChangeText? && !e.PressAdd? ==> r.inputText == s.inputText
    ensures e.ChangeText? ==> r.todos == s.todos
    ensures e.PressAdd? ==> |r.todos| <= |s.todos| + 1
    ensures !e.PressAdd? ==> |r.todos| <= |s.todos|
  {
    match e
    case ChangeText(text) => SetInputText(s, text)
    case PressAdd(newId) => AddTodo(s, newId).state
    case PressDone(id) => s.(todos := MarkTodoComplete(s.todos, id))
    case PressDelete(id) => s.(todos := DeleteTodo(s.todos, id))
    case AnswerClear(choice) => ClearTodos(s, choice)
  }

  /** A sequence of intents handled one after the other. */
  function Run(s: State, events: seq<Event>): State
    decreases |events|
  {
    if |events| == 0 then s else Run(Step(s, events[0]), events[1..])
  }

  /** The ids handed to "add" presses in a sequence of intents. */
  function AddedIds(events: seq<Event>): (ids: set<Id>)
    ensures forall id :: id in ids <==>
              exists i :: 0 <= i < |events| && events[i].PressAdd? && events[i].newId == id
  {
    if |events| == 0 then {}
    else
      var rest := AddedIds(events[1..]);
      assert forall i :: 0 < i < |events| ==> events[1..][i - 1] == events[i];
      (if events[0].PressAdd? then {events[0].newId} else {}) + rest
  }

  /** The record an intent creates, if it creates one. */
  function Created(s: State, e: Event): multiset<Todo> {
    if e.PressAdd? && s.inputText != "" then multiset{Todo(e.newId, s.inputText, false)}
    else multiset{}
  }

  /** The records the accepted "add" presses of a run create, in order. */
  function CreatedInRun(s: State, events: seq<Event>): (c: multiset<Todo>)
    ensures forall t :: t in c ==> !t.completed && t.task != "" && t.id in AddedIds(events)
    decreases |events|
  {
    if |events| == 0 then multiset{}
    else Created(s, events[0]) + CreatedInRun(Step(s, events[0]), events[1..])
  }

  /** No intent turns a completed task back into a pending one: the pending
      records after a step are among those before it, plus the one new
      record an accepted "add" creates. */
  lemma StepNeverUncompletes(s: State, e: Event)
    ensures Pending(Step(s, e).todos) <= Pending(s.todos) + Created(s, e)
  {
    match e
    case ChangeText(_) =>
    case PressAdd(newId) =>
      if s.inputText != "" {
        var t := s.todos + [Todo(newId, s.inputText, false)];
        assert multiset(t) == multiset(s.todos) + multiset{Todo(newId, s.inputText, false)};
      }
    case PressDone(id) => MarkShrinksPending(s.todos, id);
    case PressDelete(id) => DeleteShrinksPending(s.todos, id);
    case AnswerClear(_) =>
  }

  /** Over any run, the pending records at the end are among those pending
      at the start plus the records the run's accepted "add" presses
      created: no task is ever un-completed. */
  lemma {:induction false} RunPendingOrigin(s: State, events: seq<Event>)
    ensures Pending(Run(s, events).todos) <= Pending(s.todos) + CreatedInRun(s, events)
    decreases |events|
  {
    if |events| > 0 {
      var next := Step(s, events[0]);
      RunPendingOrigin(next, events[1..]);
      StepNeverUncompletes(s, events[0]);
    }
  }

  /** No intent invents an id: every id in the list after a step was there
      before or was handed to that step's "add" press. */
  lemma StepIdsOrigin(s: State, e: Event, k: Id)
    requires HasId(Step(s, e).todos, k)
    ensures HasId(s.todos, k) || (e.PressAdd? && e.newId == k)
  {
    match e
    case ChangeText(_) =>
    case PressAdd(newId) =>
      if s.inputText != "" {
        CountAppend(s.todos, Todo(newId, s.inputText, false), k);
      }
    case PressDone(id) => CountAfterMark(s.todos, id, k);
    case PressDelete(id) => CountAfterDelete(s.todos, id, k);
    case AnswerClear(_) =>
  }

  /** Over any run, every id in the final list was in the starting list or
      was handed to one of the run's "add" presses. */
  lemma {:induction false} RunIdsOrigin(s: State, events: seq<Event>, k: Id)
    requires HasId(Run(s, events).todos, k)
    ensures HasId(s.todos, k) || k in AddedIds(events)
    decreases |events|
  {
    if |events| > 0 {
      var next := Step(s, events[0]);
      RunIdsOrigin(next, events[1..], k);
      if HasId(next.todos, k) {
        StepIdsOrigin(s, events[0], k);
      }
    }
  }

  /** From the screen's starting state, every task in the list carries an id
      handed to an "add" press, and every pending task is exactly a record
      one of the accepted "add" presses created. */
  lemma RunFromInitial(events: seq<Event>)
    ensures forall k :: HasId(Run(Initial, events).todos, k) ==> k in AddedIds(events)
    ensures Pending(Run(Initial, events).todos) <= CreatedInRun(Initial, events)
  {
    forall k | HasId(Run(Initial, events).todos, k) ensures k in AddedIds(events) {
      RunIdsOrigin(Initial, events, k);
    }
    RunPendingOrigin(Initial, events);
  }

  /** Pressing "add" under an id the list does not carry and then deleting
      that id restores the list exactly, whether or not the add was refused. */
  lemma AddThenDeleteRestores(s: State, newId: Id)
    requires !HasId(s.todos, newId)
    ensures DeleteTodo(AddTodo(s, newId).state.todos, newId) == s.todos
  {
    if s.inputText != "" {
      var newTodo := Todo(newId, s.inputText, false);
      assert AddTodo(s, newId).state.todos == s.todos + [newTodo];
      DeleteAppend(s.todos, newTodo, newId);
    }
    DeleteAbsentIsIdentity(s.todos, newId);
  }

  /** Unique ids stay unique under every intent, provided each "add" press
      that is accepted is handed an id the list does not already carry. */
  lemma StepPreservesUniqueIds(s: State, e: Event)
    requires UniqueIds(s.todos)
    requires e.PressAdd? && s.inputText != "" ==> !HasId(s.todos, e.newId)
    ensures UniqueIds(Step(s, e).todos)
  {
    var after := Step(s, e).todos;
    forall k ensures Count(after, k) <= 1 {
      match e
      case ChangeText(_) =>
      case PressAdd(newId) =>
        if s.inputText != "" {
          CountAppend(s.todos, Todo(newId, s.inputText, false), k);
        }
      case PressDone(id) => CountAfterMark(s.todos, id, k);
      case PressDelete(id) => CountAfterDelete(s.todos, id, k);
      case AnswerClear(_) =>
    }
  }

  /** Add "Buy milk", press add again on the emptied box (refused), then
      mark the first task done: one completed "Buy milk" remains. */
  lemma BuyMilkScenario(id1: Id, id2: Id)
    ensures
      var s1 := Step(SetInputText(Initial, "Buy milk"), PressAdd(id1));
      && AddTodo(s1, id2).alert == Some(EmptyInputAlert)
      && Run(Initial, [ChangeText("Buy milk"), PressAdd(id1), PressAdd(id2), PressDone(id1)]).todos
         == [Todo(id1, "Buy milk", true)]
  {
    var s1 := Step(SetInputText(Initial, "Buy milk"), PressAdd(id1));
    assert s1.todos == [Todo(id1, "Buy milk", false)];
    assert Step(s1, PressAdd(id2)) == s1;
    var done := MarkTodoComplete(s1.todos, id1);
    assert done[0] == Todo(id1, "Buy milk", true);
    var events := [ChangeText("Buy milk"), PressAdd(id1), PressAdd(id2), PressDone(id1)];
    assert events[1..] == [PressAdd(id1), PressAdd(id2), PressDone(id1)];
    assert events[1..][1..] == [PressAdd(id2), PressDone(id1)];
    assert events[1..][1..][1..] == [PressDone(id1)];
    assert Run(Initial, events) == Run(s1, [PressAdd(id2), PressDone(id1)]);
    assert Run(s1, [PressAdd(id2), PressDone(id1)]) == Run(s1, [PressDone(id1)]);
    assert Run(s1, [PressDone(id1)]) == Run(s1.(todos := done), []);
  }
}
