/** One rendered row of the list: its local editor state, the events the row's
    controls deliver, and the callbacks the row makes into the list state. */
module TodoItem {
  import opened Text
  import opened Lists
  import opened TodoList

  /** The row's local state. The draft lives on while the row is not being
      edited: it is seeded once when the row mounts and reset only by cancel. */
  datatype RowState = RowState(isEditing: bool, draft: string)

  /** A call the row makes to the handlers the list passes it. */
  datatype Callback =
    | NoCall
    | OnToggle(id: Id)
    | OnDelete(id: Id)
    | OnEdit(id: Id, text: string)

  /** What the row's controls deliver: a click on the text, a keystroke changing
      the edit input, the edit form's submit, the edit input losing focus, a key
      press in the edit input, a change of the checkbox, a click on delete. */
  datatype Event =
    | TextClicked
    | DraftTyped(value: string)
    | Submitted
    | Blurred
    | KeyPressed(key: string)
    | CheckboxChanged
    | DeleteClicked

  function Mount(todo: Item): (s: RowState)
    ensures !s.isEditing
    ensures s.draft == todo.text
  {
    RowState(false, todo.text)
  }

  /** Clicking the text enters edit mode; the draft is NOT reseeded from the item. */
  function StartEdit(s: RowState): (r: RowState)
    ensures r.isEditing
    ensures r.draft == s.draft
  {
    s.(isEditing := true)
  }

  function TypeDraft(s: RowState, value: string): (r: RowState)
    ensures r.draft == value
    ensures r.isEditing == s.isEditing
  {
    s.(draft := value)
  }

  /** Commits the trimmed draft when it is non-blank and differs from the item's
      text; leaves edit mode either way and keeps the draft as typed. */
  function SubmitEdit(s: RowState, todo: Item): (r: (RowState, Callback))
    ensures !r.0.isEditing
    ensures r.0.draft == s.draft
    ensures r.1 != NoCall <==> Trim(s.draft) != [] && Trim(s.draft) != todo.text
    ensures r.1 == NoCall || r.1 == OnEdit(todo.id, Trim(s.draft))
  {
    var t := Trim(s.draft);
    var call := if t != [] && t != todo.text then OnEdit(todo.id, t) else NoCall;
    (s.(isEditing := false), call)
  }

  /** Drops the draft back to the item's text and leaves edit mode without a call. */
  function CancelEdit(todo: Item): (r: (RowState, Callback))
    ensures r.0 == Mount(todo)
    ensures r.1 == NoCall
  {
    (RowState(false, todo.text), NoCall)
  }

  /** Routes one event to its handler. */
  function Step(s: RowState, todo: Item, e: Event): (r: (RowState, Callback))
    ensures r.1 != NoCall ==> r.1.id == todo.id
    ensures r.1.OnToggle? <==> e == CheckboxChanged
    ensures r.1.OnDelete? <==> e == DeleteClicked
    ensures r.1.OnEdit? <==>
      (e == Submitted || e == Blurred) && Trim(s.draft) != [] && Trim(s.draft) != todo.text
    ensures r.1.OnEdit? ==> r.1.text == Trim(s.draft)
    ensures e == Submitted || e == Blurred ==> !r.0.isEditing && r.0.draft == s.draft
    ensures e == KeyPressed("Escape") ==> r == (Mount(todo), NoCall)
    ensures e == TextClicked ==> r == (RowState(true, s.draft), NoCall)
    ensures e.DraftTyped? ==> r == (s.(draft := e.value), NoCall)
    ensures r.0.isEditing != s.isEditing ==>
      e == TextClicked || e == Submitted || e == Blurred || e == KeyPressed("Escape")
    ensures r.0.draft != s.draft ==> e.DraftTyped? || e == KeyPressed("Escape")
  {
    match e
    case TextClicked => (StartEdit(s), NoCall)
    case DraftTyped(v) => (TypeDraft(s, v), NoCall)
    case Submitted => SubmitEdit(s, todo)
    case Blurred => SubmitEdit(s, todo)
    case KeyPressed(k) => if k == "Escape" then CancelEdit(todo) else (s, NoCall)
    case CheckboxChanged => (s, OnToggle(todo.id))
    case DeleteClicked => (s, OnDelete(todo.id))
  }

  /** The list handlers wired to a row's callbacks. */
  function Apply(todos: seq<Item>, call: Callback): (r: seq<Item>)
    ensures |r| <= |todos|
    ensures !call.OnDelete? ==> |r| == |todos|
    ensures call.NoCall? ==> r == todos
    ensures call.OnToggle? ==> forall i :: 0 <= i < |r| ==>
      && r[i].id == todos[i].id && r[i].text == todos[i].text
      && (r[i].completed != todos[i].completed <==> todos[i].id == call.id)
    ensures call.OnDelete? ==>
      (forall t :: t in r <==> t in todos && t.id != call.id) && IsSubsequence(r, todos)
    ensures call.OnEdit? ==> forall i :: 0 <= i < |r| ==>
      && r[i].id == todos[i].id && r[i].completed == todos[i].completed
      && r[i].text == (if todos[i].id == call.id then call.text else todos[i].text)
  {
    match call
    case NoCall => todos
    case OnToggle(id) => ToggleTodo(todos, id)
    case OnDelete(id) => DeleteTodo(todos, id)
    case OnEdit(id, text) => EditTodo(todos, id, text)
  }

  /** Whatever event a row handles, the list it calls back into keeps ids
      distinct and keeps every stored text non-blank and trimmed. */
  lemma StepKeepsListInvariants(todos: seq<Item>, s: RowState, todo: Item, e: Event)
    requires DistinctIds(todos)
    requires TextsTrimmed(todos)
    ensures DistinctIds(Apply(todos, Step(s, todo, e).1))
    ensures TextsTrimmed(Apply(todos, Step(s, todo, e).1))
  {
    var call := Step(s, todo, e).1;
    match call
    case NoCall =>
    case OnToggle(id) =>
      ToggleKeepsDistinctIds(todos, id);
      ToggleKeepsTextsTrimmed(todos, id);
    case OnDelete(id) =>
      DeleteKeepsDistinctIds(todos, id);
    case OnEdit(id, text) =>
      EditKeepsDistinctIds(todos, id, text);
      EditKeepsTextsTrimmed(todos, id, text);
  }

  /** The checkbox of the row of `todos[i]` flips that item's completion and
      nothing else. */
  lemma CheckboxTogglesOwnItem(todos: seq<Item>, i: nat, s: RowState)
    requires DistinctIds(todos)
    requires i < |todos|
    ensures var r := Apply(todos, Step(s, todos[i], CheckboxChanged).1);
            && |r| == |todos|
            && r[i] == todos[i].(completed := !todos[i].completed)
            && forall k :: 0 <= k < |todos| && k != i ==> r[k] == todos[k]
  {
  }

  /** The delete button of the row of `todos[i]` removes exactly that item. */
  lemma DeleteButtonRemovesOwnItem(todos: seq<Item>, i: nat, s: RowState)
    requires DistinctIds(todos)
    requires i < |todos|
    ensures var r := Apply(todos, Step(s, todos[i], DeleteClicked).1);
            && |r| == |todos| - 1
            && !HasId(r, todos[i].id)
            && IsSubsequence(r, todos)
  {
    DeleteRemovesOne(todos, todos[i].id);
  }

  /** Submitting (or blurring the edit input) in the row of `todos[i]` leaves
      that item's text either as it was or as the trimmed draft, the latter
      exactly when the trimmed draft is non-blank; no other item changes. */
  lemma SubmitStoresTrimmedDraft(todos: seq<Item>, i: nat, s: RowState, e: Event)
    requires DistinctIds(todos)
    requires i < |todos|
    requires e == Submitted || e == Blurred
    ensures var r := Apply(todos, Step(s, todos[i], e).1);
            && |r| == |todos|
            && r[i].text == (if Trim(s.draft) != [] then Trim(s.draft) else todos[i].text)
            && forall k :: 0 <= k < |todos| && k != i ==> r[k] == todos[k]
  {
  }

  /** Clicking the text of the row of `todos[i]`, typing `v` and submitting
      stores the trimmed `v` in that item when it is non-blank, and nothing
      otherwise; the row leaves edit mode with `v` as its draft. */
  lemma TypedTextReachesList(todos: seq<Item>, i: nat, s: RowState, v: string)
    requires DistinctIds(todos)
    requires i < |todos|
    ensures var s1 := Step(s, todos[i], TextClicked).0;
            var s2 := Step(s1, todos[i], DraftTyped(v)).0;
            var (s3, call) := Step(s2, todos[i], Submitted);
            var r := Apply(todos, call);
            && s3 == RowState(false, v)
            && |r| == |todos|
            && r[i].text == (if Trim(v) != [] then Trim(v) else todos[i].text)
            && forall k :: 0 <= k < |todos| && k != i ==> r[k] == todos[k]
  {
    SubmitStoresTrimmedDraft(todos, i, RowState(true, v), Submitted);
  }

  /** Because entering edit mode does not reseed the draft, a blank submit leaves
      the blank draft in place and the next edit starts from it rather than from
      the item's text. */
  lemma BlankDraftSurvivesReentry(todo: Item, blank: string)
    requires AllWhiteSpace(blank)
    ensures var s1 := Step(Mount(todo), todo, TextClicked).0;
            var s2 := Step(s1, todo, DraftTyped(blank)).0;
            var (s3, call) := Step(s2, todo, Submitted);
            var s4 := Step(s3, todo, TextClicked).0;
            && call == NoCall
            && s4 == RowState(true, blank)
  {
  }
}
