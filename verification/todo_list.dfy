/**
 The to-do list itself: the record stored per task and the two list
 transformations the app applies by id, "mark complete" (a `map`) and
 "delete" (a `filter`). Ids are the numbers the app draws at random; only
 their equality matters here, and nothing below assumes they are unique.
 */
module TodoList {

  /** A task identifier; the app compares ids with strict equality only. */
  type Id = int

  /** One to-do record `{id, task, completed}`. */
  datatype Todo = Todo(id: Id, task: string, completed: bool)

  /* ---------------------------------------------------------------------
     Reference notions used to state what the operations do
     --------------------------------------------------------------------- */

  /** True iff some item of the list carries `id`. */
  predicate HasId(todos: seq<Todo>, id: Id) {
    exists i :: 0 <= i < |todos| && todos[i].id == id
  }

  /** The number of items carrying `id`. */
  function Count(todos: seq<Todo>, id: Id): (n: nat)
    ensures n <= |todos|
    ensures n == 0 <==> !HasId(todos, id)
  {
    if |todos| == 0 then 0
    else (if todos[0].id == id then 1 else 0) + Count(todos[1..], id)
  }

  /** No two items share an id (the app does not guarantee this). */
  ghost predicate UniqueIds(todos: seq<Todo>) {
    forall id :: Count(todos, id) <= 1
  }

  /** `sub` is obtained from `s` by dropping some items, keeping the order. */
  predicate IsSubsequence(sub: seq<Todo>, s: seq<Todo>)
    decreases |s|
  {
    if |sub| == 0 then true
    else if |s| == 0 then false
    else if sub[0] == s[0] then IsSubsequence(sub[1..], s[1..])
    else IsSubsequence(sub, s[1..])
  }

  /** The multiset of records that are not yet completed. */
  function Pending(todos: seq<Todo>): (p: multiset<Todo>)
    ensures forall t {:trigger p[t]} :: p[t] == (if t.completed then 0 else multiset(todos)[t])
  {
    if |todos| == 0 then multiset{}
    else
      assert todos == [todos[0]] + todos[1..];
      (if todos[0].completed then multiset{} else multiset{todos[0]}) + Pending(todos[1..])
  }

  /* ---------------------------------------------------------------------
     markTodoComplete: every item whose id matches gets completed = true
     --------------------------------------------------------------------- */

  function MarkTodoComplete(todos: seq<Todo>, id: Id): (r: seq<Todo>)
    ensures |r| == |todos|
    ensures forall i :: 0 <= i < |todos| ==>
              && r[i].id == todos[i].id
              && r[i].task == todos[i].task
              && r[i].completed == (todos[i].completed || todos[i].id == id)
  {
    if |todos| == 0 then []
    else
      var head := if todos[0].id == id then todos[0].(completed := true) else todos[0];
      [head] + MarkTodoComplete(todos[1..], id)
  }

  /** Marking an id that no item carries changes nothing. */
  lemma MarkAbsentIsIdentity(todos: seq<Todo>, id: Id)
    requires !HasId(todos, id)
    ensures MarkTodoComplete(todos, id) == todos
  {
  }

  /** Marking the same id twice is the same as marking it once. */
  lemma MarkIdempotent(todos: seq<Todo>, id: Id)
    ensures MarkTodoComplete(MarkTodoComplete(todos, id), id) == MarkTodoComplete(todos, id)
  {
  }

  /** Marking never makes a record pending: the pending records afterwards
      are among the pending records before. */
  lemma {:induction false} MarkShrinksPending(todos: seq<Todo>, id: Id)
    ensures Pending(MarkTodoComplete(todos, id)) <= Pending(todos)
  {
    if |todos| > 0 {
      MarkShrinksPending(todos[1..], id);
      var r := MarkTodoComplete(todos, id);
      assert r[1..] == MarkTodoComplete(todos[1..], id);
      assert Pending(r) == (if r[0].completed then multiset{} else multiset{r[0]}) + Pending(r[1..]);
    }
  }

  /* ---------------------------------------------------------------------
     deleteTodo: keep exactly the items whose id differs
     --------------------------------------------------------------------- */

  function DeleteTodo(todos: seq<Todo>, id: Id): (r: seq<Todo>)
    ensures |r| == |todos| - Count(todos, id)
    ensures forall t {:trigger multiset(r)[t]} :: multiset(r)[t] == (if t.id == id then 0 else multiset(todos)[t])
    ensures IsSubsequence(r, todos)
  {
    if |todos| == 0 then []
    else
      var rest := DeleteTodo(todos[1..], id);
      assert todos == [todos[0]] + todos[1..];
      if todos[0].id == id then
        SubsequenceOfTail(rest, todos);
        rest
      else
        assert ([todos[0]] + rest)[1..] == rest;
        [todos[0]] + rest
  }

  /** A subsequence of the tail of `s` is a subsequence of `s`. */
  lemma {:induction false} SubsequenceOfTail(sub: seq<Todo>, s: seq<Todo>)
    requires |s| > 0
    requires IsSubsequence(sub, s[1..])
    ensures IsSubsequence(sub, s)
    decreases |s|, 0
  {
    if |sub| > 0 && sub[0] == s[0] {
      SubsequenceDropHead(sub, s[1..]);
    }
  }

  /** A subsequence stays one when its own first item is dropped. */
  lemma {:induction false} SubsequenceDropHead(sub: seq<Todo>, s: seq<Todo>)
    requires |sub| > 0
    requires IsSubsequence(sub, s)
    ensures IsSubsequence(sub[1..], s)
    decreases |s|, 1
  {
    if sub[0] == s[0] {
      SubsequenceOfTail(sub[1..], s);
    } else {
      SubsequenceDropHead(sub, s[1..]);
      SubsequenceOfTail(sub[1..], s);
    }
  }

  /** Deleting an id that no item carries changes nothing. */
  lemma {:induction false} DeleteAbsentIsIdentity(todos: seq<Todo>, id: Id)
    requires !HasId(todos, id)
    ensures DeleteTodo(todos, id) == todos
  {
    if |todos| > 0 {
      assert todos[0].id != id;
      assert !HasId(todos[1..], id) by {
        forall i | 0 <= i < |todos[1..]| ensures todos[1..][i].id != id {
          assert todos[1..][i] == todos[i + 1];
        }
      }
      DeleteAbsentIsIdentity(todos[1..], id);
      assert todos == [todos[0]] + todos[1..];
    }
  }

  /** After a delete the id is gone, so a second delete changes nothing. */
  lemma DeleteIdempotent(todos: seq<Todo>, id: Id)
    ensures DeleteTodo(DeleteTodo(todos, id), id) == DeleteTodo(todos, id)
  {
  }

  /** When ids are unique, deleting a present id removes exactly one item. */
  lemma DeleteUniqueRemovesOne(todos: seq<Todo>, id: Id)
    requires UniqueIds(todos)
    requires HasId(todos, id)
    ensures |DeleteTodo(todos, id)| == |todos| - 1
  {
  }

  /** The per-id counts after a delete: the deleted id is gone, every other
      id keeps its count. */
  lemma {:induction false} CountAfterDelete(todos: seq<Todo>, id: Id, k: Id)
    ensures Count(DeleteTodo(todos, id), k) == (if k == id then 0 else Count(todos, k))
  {
    if |todos| > 0 {
      CountAfterDelete(todos[1..], id, k);
      var rest := DeleteTodo(todos[1..], id);
      if todos[0].id != id {
        assert ([todos[0]] + rest)[1..] == rest;
      }
    }
  }

  /** Deleting never makes a record pending. */
  lemma DeleteShrinksPending(todos: seq<Todo>, id: Id)
    ensures Pending(DeleteTodo(todos, id)) <= Pending(todos)
  {
  }

  /** Deleting from a list with one more item at the end. */
  lemma {:induction false} DeleteAppend(todos: seq<Todo>, x: Todo, id: Id)
    ensures DeleteTodo(todos + [x], id)
            == DeleteTodo(todos, id) + (if x.id == id then [] else [x])
  {
    if |todos| == 0 {
      assert todos + [x] == [x];
      assert [x][1..] == [];
    } else {
      assert (todos + [x])[1..] == todos[1..] + [x];
      DeleteAppend(todos[1..], x, id);
    }
  }

  /** The per-id counts of a list with one more item at the end. */
  lemma {:induction false} CountAppend(todos: seq<Todo>, x: Todo, k: Id)
    ensures Count(todos + [x], k) == Count(todos, k) + (if x.id == k then 1 else 0)
  {
    if |todos| == 0 {
      assert todos + [x] == [x];
      assert [x][1..] == [];
    } else {
      assert (todos + [x])[1..] == todos[1..] + [x];
      CountAppend(todos[1..], x, k);
    }
  }

  /** Marking keeps every id where it was, so unique ids stay unique. */
  lemma {:induction false} CountAfterMark(todos: seq<Todo>, id: Id, k: Id)
    ensures Count(MarkTodoComplete(todos, id), k) == Count(todos, k)
  {
    if |todos| > 0 {
      CountAfterMark(todos[1..], id, k);
      var r := MarkTodoComplete(todos, id);
      assert r[1..] == MarkTodoComplete(todos[1..], id);
    }
  }
}
