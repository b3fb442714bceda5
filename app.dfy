/**
  The `App` component of the client: its four pieces of state and the
  handlers that change them.

  Each handler that talks to the server is given the server's answer as an
  `Outcome` parameter and returns the request it sends (None when it sends
  none), so that "which request goes out" and "what the state becomes for
  every possible answer" are both stated. Every handler runs to completion
  before the next one starts.
 */
module TodoApp {
  import opened Text
  import opened TodoList

  /** The server's answer to one request: a payload, or a thrown error (caught and logged). */
  datatype Outcome<+T> = Success(payload: T) | Failure

  /** The body of a PATCH request: the edited text, or the new completed flag. */
  datatype PatchBody = SetText(text: string) | SetCompleted(completed: bool)

  /** The HTTP requests the client issues against `/api/todos`. */
  datatype Request =
    | Post(text: string)              // POST /api/todos {text}
    | Get                             // GET /api/todos
    | Patch(id: Id, body: PatchBody)  // PATCH /api/todos/{id}
    | Delete(id: Id)                  // DELETE /api/todos/{id}

  class App {
    /** The text typed for a new item. */
    var newTodo: string
    /** The local copy of the item list, in display order. */
    var todos: seq<Item>
    /** The id of the item being edited, or None (JavaScript's null). */
    var editingTodo: Option<Id>
    /** The edit buffer. */
    var textEdited: string

    /** The initial state of the four `useState` hooks. */
    constructor ()
      ensures newTodo == "" && todos == [] && editingTodo == None && textEdited == ""
    {
      newTodo := "";
      todos := [];
      editingTodo := None;
      textEdited := "";
    }

    /** The new-item input's change handler. */
    method SetNewTodo(text: string)
      modifies this
      ensures newTodo == text
      ensures todos == old(todos) && editingTodo == old(editingTodo) && textEdited == old(textEdited)
    {
      newTodo := text;
    }

    /** The edit input's change handler. */
    method SetTextEdited(text: string)
      modifies this
      ensures textEdited == text
      ensures newTodo == old(newTodo) && todos == old(todos) && editingTodo == old(editingTodo)
    {
      textEdited := text;
    }

    /**
      Submitting the new-item form. A blank input sends nothing and changes
      nothing. Otherwise the trimmed text is posted; the created item is
      appended after all existing ones and the input is cleared. A failed
      post changes nothing.
     */
    method AddTodo(reply: Outcome<Item>) returns (sent: Option<Request>)
      modifies this
      ensures IsBlank(old(newTodo)) ==> sent == None
      ensures !IsBlank(old(newTodo)) ==> sent == Some(Post(Trim(old(newTodo))))
      ensures if !IsBlank(old(newTodo)) && reply.Success?
        then todos == old(todos) + [reply.payload] && newTodo == ""
        else todos == old(todos) && newTodo == old(newTodo)
      ensures editingTodo == old(editingTodo) && textEdited == old(textEdited)
      ensures old(UniqueIds(todos)) && (reply.Success? ==> !HasId(old(todos), reply.payload.id)) ==>
        UniqueIds(todos)
    {
      TrimEmptyIffBlank(newTodo);
      var text := Trim(newTodo);
      if text == "" {
        return None;
      }
      sent := Some(Post(text));
      match reply
      case Success(created) =>
        if UniqueIds(todos) && !HasId(todos, created.id) {
          AppendKeepsUnique(todos, created);
        }
        todos := todos + [created];
        newTodo := "";
      case Failure =>
    }

    /** Loading the list: on success the local list is replaced wholesale by the server's. */
    method FetchTodos(reply: Outcome<seq<Item>>) returns (sent: Request)
      modifies this
      ensures sent == Get
      ensures todos == if reply.Success? then reply.payload else old(todos)
      ensures newTodo == old(newTodo) && editingTodo == old(editingTodo) && textEdited == old(textEdited)
    {
      sent := Get;
      if reply.Success? {
        todos := reply.payload;
      }
    }

    /** The Edit button: `todo` enters edit mode with its text in the buffer; no request. */
    method Editing(todo: Item)
      modifies this
      ensures editingTodo == Some(todo.id) && textEdited == todo.text
      ensures todos == old(todos) && newTodo == old(newTodo)
      ensures forall k :: 0 <= k < |todos| && InEditMode(editingTodo, todos[k]) ==> todos[k].id == todo.id
    {
      editingTodo := Some(todo.id);
      textEdited := todo.text;
    }

    /**
      The Save button: the buffer is sent as the new text of `id`. On success
      every item with that id is replaced by the server's item and edit mode
      ends with an empty buffer; on failure the item stays in edit mode with
      its buffer intact.
     */
    method SaveEdit(id: Id, reply: Outcome<Item>) returns (sent: Request)
      modifies this
      ensures sent == Patch(id, SetText(old(textEdited)))
      ensures reply.Success? ==>
        todos == ReplaceById(old(todos), id, reply.payload) && editingTodo == None && textEdited == ""
      ensures reply.Failure? ==>
        todos == old(todos) && editingTodo == old(editingTodo) && textEdited == old(textEdited)
      ensures newTodo == old(newTodo)
      ensures old(UniqueIds(todos)) && (reply.Success? ==> reply.payload.id == id) ==> UniqueIds(todos)
    {
      sent := Patch(id, SetText(textEdited));
      if reply.Success? {
        if reply.payload.id == id {
          ReplaceByIdKeepsIds(todos, id, reply.payload);
        }
        todos := ReplaceById(todos, id, reply.payload);
        editingTodo := None;
        textEdited := "";
      }
    }

    /** The Cancel button: edit mode ends; the buffer and the list are left as they were. */
    method Cancel()
      modifies this
      ensures editingTodo == None
      ensures todos == old(todos) && newTodo == old(newTodo) && textEdited == old(textEdited)
    {
      editingTodo := None;
    }

    /** The Delete button: on success every item with that id is dropped; on failure nothing changes. */
    method DeleteTodo(id: Id, reply: Outcome<()>) returns (sent: Request)
      modifies this
      ensures sent == Delete(id)
      ensures todos == if reply.Success? then RemoveById(old(todos), id) else old(todos)
      ensures newTodo == old(newTodo) && editingTodo == old(editingTodo) && textEdited == old(textEdited)
      ensures old(UniqueIds(todos)) ==> UniqueIds(todos)
    {
      sent := Delete(id);
      if reply.Success? {
        if UniqueIds(todos) {
          RemoveByIdKeepsUnique(todos, id);
        }
        todos := RemoveById(todos, id);
      }
    }

    /**
      The toggle button. The first item with that id gives the flag to
      invert; when there is none, reading its flag throws before any request
      is made, and the error is caught. On success every item with that id is
      replaced by the server's item.
     */
    method ToggleTodo(id: Id, reply: Outcome<Item>) returns (sent: Option<Request>)
      modifies this
      ensures !HasId(old(todos), id) ==> sent == None && todos == old(todos)
      ensures HasId(old(todos), id) ==>
        sent == Some(Patch(id, SetCompleted(!Find(old(todos), id).value.completed)))
      ensures todos == if HasId(old(todos), id) && reply.Success?
        then ReplaceById(old(todos), id, reply.payload) else old(todos)
      ensures newTodo == old(newTodo) && editingTodo == old(editingTodo) && textEdited == old(textEdited)
      ensures old(UniqueIds(todos)) && (reply.Success? ==> reply.payload.id == id) ==> UniqueIds(todos)
    {
      var found := Find(todos, id);
      match found
      case None =>
        sent := None;
      case Some(todo) =>
        sent := Some(Patch(id, SetCompleted(!todo.completed)));
        if reply.Success? {
          if reply.payload.id == id {
            ReplaceByIdKeepsIds(todos, id, reply.payload);
          }
          todos := ReplaceById(todos, id, reply.payload);
        }
    }
  }

  /** Trimming the padded input used below drops its leading space... */
  lemma PaddedInputTrimStart()
    ensures TrimStart(" tea ") == "tea "
  {
    assert " tea "[0] == ' ' && " tea "[1..] == "tea ";
    assert "tea "[0] == 't' && !IsWhitespace('t');
  }

  /** ...and then its trailing space. */
  lemma PaddedInputTrimEnd()
    ensures TrimEnd("tea ") == "tea"
  {
    assert "tea "[3] == ' ' && "tea "[..3] == "tea";
    assert "tea"[2] == 'a' && !IsWhitespace('a');
  }

  /** The padded input used below is not blank, and trims to its inner text. */
  lemma PaddedInputTrims()
    ensures !IsBlank(" tea ") && Trim(" tea ") == "tea"
  {
    PaddedInputTrimStart();
    PaddedInputTrimEnd();
    assert " tea "[1] == 't' && !IsWhitespace('t');
  }

  /**
    Adding: a blank submission sends nothing; a padded one posts the trimmed
    text and appends the created item.
   */
  method AddScenario(a: Id) {
    var app := new App();
    var blank := app.AddTodo(Failure);
    assert blank == None;

    PaddedInputTrims();
    app.SetNewTodo(" tea ");
    var created := Item(a, "tea", false);
    var sent := app.AddTodo(Success(created));
    assert sent == Some(Post("tea"));
    assert app.todos == [created] && app.newTodo == "";
  }

  /** Toggling: a known id inverts its flag through the server; an unknown one sends nothing. */
  method ToggleScenario(a: Id, b: Id) requires a != b {
    var app := new App();
    var created := Item(a, "Buy milk", false);
    var fetched := app.FetchTodos(Success([created]));
    var done := Item(a, "Buy milk", true);
    assert [created][0].id == a;
    assert Find([created], a) == Some(created);
    assert ReplaceById([created], a, done) == [done];
    var sent := app.ToggleTodo(a, Success(done));
    assert sent == Some(Patch(a, SetCompleted(true)));
    assert app.todos == [done];

    assert !HasId([done], b);
    sent := app.ToggleTodo(b, Success(done));
    assert sent == None && app.todos == [done];
  }

  /** Editing: a failed save keeps edit mode and the buffer; a successful one ends both. */
  method EditScenario(a: Id) {
    var app := new App();
    var done := Item(a, "Buy milk", true);
    var fetched := app.FetchTodos(Success([done]));
    app.Editing(done);
    app.SetTextEdited("Buy oat milk");
    var patch := app.SaveEdit(a, Failure);
    assert app.todos == [done] && app.editingTodo == Some(a) && app.textEdited == "Buy oat milk";
    var renamed := Item(a, "Buy oat milk", true);
    assert ReplaceById([done], a, renamed) == [renamed];
    patch := app.SaveEdit(a, Success(renamed));
    assert patch == Patch(a, SetText("Buy oat milk"));
    assert app.todos == [renamed] && app.editingTodo == None && app.textEdited == "";

    app.Editing(renamed);
    app.SetTextEdited("Buy bread");
    app.Cancel();
    assert app.editingTodo == None && app.textEdited == "Buy bread" && app.todos == [renamed];
  }

  /** Deleting: a failed delete keeps the item; a successful one drops it. */
  method DeleteScenario(a: Id) {
    var app := new App();
    var renamed := Item(a, "Buy oat milk", true);
    var fetched := app.FetchTodos(Success([renamed]));
    var del := app.DeleteTodo(a, Failure);
    assert app.todos == [renamed];
    assert RemoveById([renamed], a) == [];
    del := app.DeleteTodo(a, Success(()));
    assert app.todos == [];
  }
}
