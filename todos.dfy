/**
 The todo-list store of the `App` component: a `Todo` record, the four handlers
 that replace the whole list (`addTodo`, `toggleTodo`, `deleteTodo`,
 `editTodo`), the guard the edit button puts in front of `editTodo`, and the
 dispatch of a user gesture to its handler.

 Each handler is a function from the old list to the new one, as React's
 `setTodos` replaces the list wholesale. `crypto.randomUUID()` becomes the
 parameter `newId`; the answer of `window.prompt` becomes a `PromptAnswer`.
 */
module Todos {
  import opened JsString

  /** One task: an opaque id, its text and whether it is done. */
  datatype Todo = Todo(id: string, text: string, completed: bool)

  /** What `window.prompt` hands back: `null` when the dialog is cancelled, otherwise a string. */
  datatype PromptAnswer = Cancelled | Answered(value: string)

  /** The ids of a list, position by position. */
  function Ids(todos: seq<Todo>): seq<string>
  {
    seq(|todos|, i requires 0 <= i < |todos| => todos[i].id)
  }

  /** No two items share an id. */
  predicate UniqueIds(todos: seq<Todo>)
  {
    forall i, j :: 0 <= i < j < |todos| ==> todos[i].id != todos[j].id
  }

  /** No item has an empty text. */
  predicate NonEmptyTexts(todos: seq<Todo>)
  {
    forall i :: 0 <= i < |todos| ==> todos[i].text != ""
  }

  /** The invariant the handlers keep: unique ids and non-empty texts. */
  predicate Valid(todos: seq<Todo>)
  {
    UniqueIds(todos) && NonEmptyTexts(todos)
  }

  // ---------------------------------------------------------------------------
  // addTodo
  // ---------------------------------------------------------------------------

  /** `addTodo`: a blank input leaves the list alone; otherwise one pending item with
      the fresh id and the trimmed text is appended after the old items. */
  function Add(todos: seq<Todo>, input: string, newId: string): (r: seq<Todo>)
    ensures IsBlank(input) ==> r == todos
    ensures !IsBlank(input) ==>
              |r| == |todos| + 1 && r[..|todos|] == todos
              && r[|todos|].id == newId && r[|todos|].text == Trim(input) && !r[|todos|].completed
    ensures !IsBlank(input) ==> r[|todos|].text != "" && !IsWhitespace(r[|todos|].text[0])
  {
    TrimEmptyIffBlank(input);
    TrimHasNoOuterWhitespace(input);
    var text := Trim(input);
    if text == [] then todos
    else todos + [Todo(newId, text, false)]
  }

  /** Submitting a text padded with whitespace on both sides appends one pending item
      carrying the text without its padding. */
  lemma AddStripsPadding(todos: seq<Todo>, before: string, text: string, after: string, newId: string)
    requires IsBlank(before) && IsBlank(after)
    requires text != [] && !IsWhitespace(text[0]) && !IsWhitespace(text[|text| - 1])
    ensures Add(todos, before + text + after, newId) == todos + [Todo(newId, text, false)]
  {
    var input := before + text + after;
    TrimOfPadded(before, text, after);
    assert input[|before|] == text[0];
    var r := Add(todos, input, newId);
    assert r[|todos|] == Todo(newId, text, false);
    assert r == r[..|todos|] + [r[|todos|]];
  }

  /** Submitting spaces and a tab appends nothing. */
  lemma AddBlankExample()
    ensures Add([Todo("u1", "Buy milk", false)], " \t ", "u2") == [Todo("u1", "Buy milk", false)]
  {
    assert IsBlank(" \t ");
  }

  // ---------------------------------------------------------------------------
  // toggleTodo
  // ---------------------------------------------------------------------------

  /** `toggleTodo`: every item whose id is `id` has its `completed` flag negated;
      ids, texts, order and the other items are kept. */
  function Toggle(todos: seq<Todo>, id: string): (r: seq<Todo>)
    ensures |r| == |todos|
    ensures forall i :: 0 <= i < |todos| ==>
              r[i].id == todos[i].id && r[i].text == todos[i].text
              && (r[i].completed <==> (todos[i].completed != (todos[i].id == id)))
  {
    if todos == [] then []
    else
      var t := todos[0];
      [if t.id == id then t.(completed := !t.completed) else t] + Toggle(todos[1..], id)
  }

  /** Toggling the same id twice gives the original list back. */
  lemma ToggleTwice(todos: seq<Todo>, id: string)
    ensures Toggle(Toggle(todos, id), id) == todos
  {
    var r := Toggle(Toggle(todos, id), id);
    assert forall i :: 0 <= i < |todos| ==> r[i] == todos[i];
  }

  /** Toggling an id that no item carries changes nothing. */
  lemma ToggleAbsent(todos: seq<Todo>, id: string)
    requires id !in Ids(todos)
    ensures Toggle(todos, id) == todos
  {
    var r := Toggle(todos, id);
    forall i | 0 <= i < |todos| ensures r[i] == todos[i] {
      assert Ids(todos)[i] == todos[i].id;
    }
  }

  /** With unique ids, toggling the id of item `k` flips that item only. */
  lemma ToggleAt(todos: seq<Todo>, k: nat)
    requires UniqueIds(todos) && k < |todos|
    ensures Toggle(todos, todos[k].id) == todos[k := todos[k].(completed := !todos[k].completed)]
  {
    var r := Toggle(todos, todos[k].id);
    var e := todos[k := todos[k].(completed := !todos[k].completed)];
    forall i | 0 <= i < |todos| ensures r[i] == e[i] {
      if i != k {
        assert todos[i].id != todos[k].id;
      }
    }
  }

  // ---------------------------------------------------------------------------
  // deleteTodo
  // ---------------------------------------------------------------------------

  /** `deleteTodo`: keeps the items whose id differs from `id`, in their order. */
  function Delete(todos: seq<Todo>, id: string): (r: seq<Todo>)
    ensures |r| <= |todos|
  {
    if todos == [] then []
    else (if todos[0].id == id then [] else [todos[0]]) + Delete(todos[1..], id)
  }

  /** An item survives `Delete` exactly when it was in the list and its id differs
      from the deleted one. */
  lemma {:induction false} DeleteMembers(todos: seq<Todo>, id: string)
    ensures forall i :: 0 <= i < |Delete(todos, id)| ==>
              Delete(todos, id)[i] in todos && Delete(todos, id)[i].id != id
    ensures forall i :: 0 <= i < |todos| && todos[i].id != id ==> todos[i] in Delete(todos, id)
  {
    if todos != [] {
      DeleteMembers(todos[1..], id);
      var head := if todos[0].id == id then [] else [todos[0]];
      var r, rest := Delete(todos, id), Delete(todos[1..], id);
      assert r == head + rest;
      forall i | 0 <= i < |r| ensures r[i] in todos && r[i].id != id {
        if i >= |head| {
          assert r[i] == rest[i - |head|];
        }
      }
      forall i | 0 <= i < |todos| && todos[i].id != id ensures todos[i] in r {
        if i > 0 {
          assert todos[i] == todos[1..][i - 1];
        }
      }
    }
  }

  /** Deleting from a concatenation deletes from each part: the survivors keep their
      relative order (`filter` is a homomorphism of concatenation). */
  lemma {:induction false} DeleteAppend(a: seq<Todo>, b: seq<Todo>, id: string)
    ensures Delete(a + b, id) == Delete(a, id) + Delete(b, id)
  {
    if a == [] {
      assert a + b == b;
    } else {
      assert (a + b)[1..] == a[1..] + b;
      DeleteAppend(a[1..], b, id);
    }
  }

  /** Deleting an id that no item carries changes nothing. */
  lemma {:induction false} DeleteAbsent(todos: seq<Todo>, id: string)
    requires id !in Ids(todos)
    ensures Delete(todos, id) == todos
  {
    if todos != [] {
      assert Ids(todos)[0] == todos[0].id;
      assert Ids(todos[1..]) == Ids(todos)[1..];
      DeleteAbsent(todos[1..], id);
    }
  }

  /** Deleting twice is deleting once. */
  lemma DeleteIdempotent(todos: seq<Todo>, id: string)
    ensures Delete(Delete(todos, id), id) == Delete(todos, id)
  {
    var r := Delete(todos, id);
    DeleteMembers(todos, id);
    forall i | 0 <= i < |r| ensures Ids(r)[i] != id {
    }
    DeleteAbsent(r, id);
  }

  /** With unique ids, deleting the id of item `k` removes that item alone, so the
      list gets one shorter. */
  lemma {:induction false} DeleteAt(todos: seq<Todo>, k: nat)
    requires UniqueIds(todos) && k < |todos|
    ensures Delete(todos, todos[k].id) == todos[..k] + todos[k + 1..]
    ensures |Delete(todos, todos[k].id)| == |todos| - 1
  {
    var id, rest := todos[k].id, todos[1..];
    assert Delete(todos, id) == (if k == 0 then [] else [todos[0]]) + Delete(rest, id);
    if k == 0 {
      assert Delete(rest, id) == rest by {
        forall i | 0 <= i < |rest| ensures Ids(rest)[i] != id {
          assert rest[i] == todos[i + 1];
        }
        DeleteAbsent(rest, id);
      }
    } else {
      assert Delete(rest, id) == rest[..k - 1] + rest[k..] by {
        assert rest[k - 1] == todos[k];
        DeleteAt(rest, k - 1);
      }
      assert rest[..k - 1] == todos[1..k];
      assert todos[..k] == [todos[0]] + todos[1..k];
      assert rest[k..] == todos[k + 1..];
    }
  }

  // ---------------------------------------------------------------------------
  // editTodo and the edit button
  // ---------------------------------------------------------------------------

  /** `editTodo`: every item whose id is `id` gets `newText`; ids, flags, order and
      the other items are kept. */
  function Edit(todos: seq<Todo>, id: string, newText: string): (r: seq<Todo>)
    ensures |r| == |todos|
    ensures forall i :: 0 <= i < |todos| ==>
              r[i].id == todos[i].id && r[i].completed == todos[i].completed
              && r[i].text == (if todos[i].id == id then newText else todos[i].text)
  {
    if todos == [] then []
    else
      var t := todos[0];
      [if t.id == id then t.(text := newText) else t] + Edit(todos[1..], id, newText)
  }

  /** The edit button: `editTodo` runs only when the prompt's answer is truthy, that is,
      neither a cancelled dialog nor the empty string. */
  function EditFromPrompt(todos: seq<Todo>, id: string, answer: PromptAnswer): (r: seq<Todo>)
    ensures answer.Cancelled? || answer.value == "" ==> r == todos
    ensures answer.Answered? && answer.value != "" ==> r == Edit(todos, id, answer.value)
  {
    match answer
    case Cancelled => todos
    case Answered(text) => if Truthy(text) then Edit(todos, id, text) else todos
  }

  /** A second edit of the same id overrides the first. */
  lemma EditTwice(todos: seq<Todo>, id: string, first: string, second: string)
    ensures Edit(Edit(todos, id, first), id, second) == Edit(todos, id, second)
  {
    var r := Edit(Edit(todos, id, first), id, second);
    assert forall i :: 0 <= i < |todos| ==> r[i] == Edit(todos, id, second)[i];
  }

  /** Editing an id that no item carries changes nothing. */
  lemma EditAbsent(todos: seq<Todo>, id: string, newText: string)
    requires id !in Ids(todos)
    ensures Edit(todos, id, newText) == todos
  {
    var r := Edit(todos, id, newText);
    forall i | 0 <= i < |todos| ensures r[i] == todos[i] {
      assert Ids(todos)[i] == todos[i].id;
    }
  }

  /** With unique ids, editing the id of item `k` changes the text of that item only. */
  lemma EditAt(todos: seq<Todo>, k: nat, newText: string)
    requires UniqueIds(todos) && k < |todos|
    ensures Edit(todos, todos[k].id, newText) == todos[k := todos[k].(text := newText)]
  {
    var r := Edit(todos, todos[k].id, newText);
    var e := todos[k := todos[k].(text := newText)];
    forall i | 0 <= i < |todos| ensures r[i] == e[i] {
      if i != k {
        assert todos[i].id != todos[k].id;
      }
    }
  }

  // ---------------------------------------------------------------------------
  // Ids stay unique
  // ---------------------------------------------------------------------------

  /** Appending an item with a fresh id keeps ids unique. */
  lemma AddKeepsUniqueIds(todos: seq<Todo>, input: string, newId: string)
    requires UniqueIds(todos) && newId !in Ids(todos)
    ensures UniqueIds(Add(todos, input, newId))
  {
    var r := Add(todos, input, newId);
    if !IsBlank(input) {
      forall i, j | 0 <= i < j < |r| ensures r[i].id != r[j].id {
        if j == |todos| {
          assert r[i] == todos[i] && Ids(todos)[i] == todos[i].id;
        } else {
          assert r[i] == todos[i] && r[j] == todos[j];
        }
      }
    }
  }

  /** Toggling keeps the ids, hence keeps them unique. */
  lemma ToggleKeepsUniqueIds(todos: seq<Todo>, id: string)
    requires UniqueIds(todos)
    ensures Ids(Toggle(todos, id)) == Ids(todos)
    ensures UniqueIds(Toggle(todos, id))
  {
    var r := Toggle(todos, id);
    forall i, j | 0 <= i < j < |r| ensures r[i].id != r[j].id {
      assert r[i].id == todos[i].id && r[j].id == todos[j].id;
    }
  }

  /** Editing keeps the ids, hence keeps them unique. */
  lemma EditKeepsUniqueIds(todos: seq<Todo>, id: string, newText: string)
    requires UniqueIds(todos)
    ensures Ids(Edit(todos, id, newText)) == Ids(todos)
    ensures UniqueIds(Edit(todos, id, newText))
  {
    var r := Edit(todos, id, newText);
    forall i, j | 0 <= i < j < |r| ensures r[i].id != r[j].id {
      assert r[i].id == todos[i].id && r[j].id == todos[j].id;
    }
  }

  /** Deleting keeps ids unique: the survivors are a subsequence of the old list. */
  lemma {:induction false} DeleteKeepsUniqueIds(todos: seq<Todo>, id: string)
    requires UniqueIds(todos)
    ensures UniqueIds(Delete(todos, id))
  {
    if todos != [] {
      var rest := Delete(todos[1..], id);
      DeleteKeepsUniqueIds(todos[1..], id);
      if todos[0].id != id {
        assert Delete(todos, id) == [todos[0]] + rest;
        DeleteMembers(todos[1..], id);
        forall j | 0 <= j < |rest| ensures rest[j].id != todos[0].id {
          var m :| 0 <= m < |todos[1..]| && todos[1..][m] == rest[j];
          assert todos[1 + m] == rest[j];
        }
      }
    }
  }

  /** Adding with a fresh id and then deleting that id restores the list. */
  lemma AddThenDelete(todos: seq<Todo>, input: string, newId: string)
    requires newId !in Ids(todos)
    ensures Delete(Add(todos, input, newId), newId) == todos
  {
    DeleteAbsent(todos, newId);
    if !IsBlank(input) {
      var t := Add(todos, input, newId)[|todos|];
      assert Add(todos, input, newId) == todos + [t];
      DeleteAppend(todos, [t], newId);
      assert Delete([t], newId) == [] by {
        assert [t][1..] == [];
      }
    }
  }

  // ---------------------------------------------------------------------------
  // Gestures
  // ---------------------------------------------------------------------------

  /** A user gesture that reaches the store: submitting the form (with the id
      `crypto.randomUUID()` would return), changing a checkbox, the edit button
      (with the prompt's answer), the delete button. */
  datatype Gesture =
    | Submit(input: string, newId: string)
    | CheckboxChanged(id: string)
    | EditClicked(id: string, answer: PromptAnswer)
    | DeleteClicked(id: string)

  /** The handler a gesture invokes, applied to the current list. */
  function Apply(todos: seq<Todo>, g: Gesture): seq<Todo>
  {
    match g
    case Submit(input, newId) => Add(todos, input, newId)
    case CheckboxChanged(id) => Toggle(todos, id)
    case EditClicked(id, answer) => EditFromPrompt(todos, id, answer)
    case DeleteClicked(id) => Delete(todos, id)
  }

  /** The one assumption on `crypto.randomUUID()`: the id it returns is not in the list.
      It is only called for a non-blank input, since a blank one returns early. */
  predicate FreshFor(todos: seq<Todo>, g: Gesture)
  {
    g.Submit? && !IsBlank(g.input) ==> g.newId !in Ids(todos)
  }

  /** Deleting keeps texts non-empty: every survivor was in the list. */
  lemma DeleteKeepsNonEmptyTexts(todos: seq<Todo>, id: string)
    requires NonEmptyTexts(todos)
    ensures NonEmptyTexts(Delete(todos, id))
  {
    var r := Delete(todos, id);
    DeleteMembers(todos, id);
    forall i | 0 <= i < |r| ensures r[i].text != "" {
      var m :| 0 <= m < |todos| && todos[m] == r[i];
    }
  }

  /** Every gesture keeps the store valid, given a fresh id for a submitted item. */
  lemma ApplyKeepsValid(todos: seq<Todo>, g: Gesture)
    requires Valid(todos) && FreshFor(todos, g)
    ensures Valid(Apply(todos, g))
  {
    match g
    case Submit(input, newId) =>
      if !IsBlank(input) {
        AddKeepsUniqueIds(todos, input, newId);
      }
    case CheckboxChanged(id) =>
      ToggleKeepsUniqueIds(todos, id);
    case EditClicked(id, answer) =>
      if answer.Answered? && answer.value != "" {
        EditKeepsUniqueIds(todos, id, answer.value);
      }
    case DeleteClicked(id) =>
      DeleteKeepsUniqueIds(todos, id);
      DeleteKeepsNonEmptyTexts(todos, id);
  }

  /** The list after a series of gestures. */
  function Run(todos: seq<Todo>, gs: seq<Gesture>): seq<Todo>
    decreases |gs|
  {
    if gs == [] then todos else Run(Apply(todos, gs[0]), gs[1..])
  }

  /** Every submitted id is fresh for the list it is added to. */
  predicate FreshAlong(todos: seq<Todo>, gs: seq<Gesture>)
    decreases |gs|
  {
    gs == [] || (FreshFor(todos, gs[0]) && FreshAlong(Apply(todos, gs[0]), gs[1..]))
  }

  /** Starting from a valid list (the empty one, say), any series of gestures with
      fresh ids leaves a valid list. */
  lemma {:induction false} RunKeepsValid(todos: seq<Todo>, gs: seq<Gesture>)
    requires Valid(todos) && FreshAlong(todos, gs)
    ensures Valid(Run(todos, gs))
    decreases |gs|
  {
    if gs != [] {
      ApplyKeepsValid(todos, gs[0]);
      RunKeepsValid(Apply(todos, gs[0]), gs[1..]);
    }
  }
}
