/**
 * The page's state and its event handlers: the global `tasks` array and
 * `currentFilter`, the submit handler of the form, the delegated click
 * handler of the list and the filter buttons' handler. The answers of the
 * blocking dialogs (`prompt`, `confirm`) and the `Date.now()` timestamp come
 * in as parts of the event.
 */
module Page {
  import opened Wrappers
  import opened Text
  import opened Arrays
  import opened Tasks
  import opened View

  /** What a click inside the list landed on, as the delegated listener tells it apart. */
  datatype Action =
    | CompleteButton                      // `.complete-btn`
    | EditButton(reply: Option<string>)   // `.edit-btn`, with what `prompt` returned (None for null)
    | DeleteButton(confirmed: bool)       // `.delete-btn`, with what `confirm` returned
    | OtherElement                        // anywhere else inside the item

  datatype Event =
    | Submit(input: string, now: int)          // the form's submit, with the input's value and `Date.now()`
    | ListClick(item: Option<int>, action: Action)  // id of the enclosing `.task-item`, None when outside every item
    | FilterClick(filter: string)              // a filter button's `data-filter`

  /** The two globals of the page. */
  datatype Session = Session(tasks: seq<Task>, filter: string)

  /** The state after one event has been handled. */
  function Step(s: Session, e: Event): (r: Session)
    ensures e.FilterClick? ==> r.tasks == s.tasks
    ensures !e.FilterClick? ==> r.filter == s.filter
  {
    match e
    case Submit(input, now) =>
      if Trim(input) != [] then s.(tasks := s.tasks + [NewTask(now, input)]) else s
    case ListClick(None, _) => s
    case ListClick(Some(id), action) =>
      match action {
        case CompleteButton => s.(tasks := Toggled(s.tasks, id))
        case EditButton(reply) =>
          if reply.Some? && Trim(reply.value) != [] then s.(tasks := Edited(s.tasks, id, reply.value)) else s
        case DeleteButton(confirmed) =>
          if confirmed then s.(tasks := Without(s.tasks, id)) else s
        case OtherElement => s
      }
    case FilterClick(filter) => s.(filter := filter)
  }

  /** The page: the task array and the current filter, updated in place by the handlers. */
  class TaskList {
    var tasks: seq<Task>
    var currentFilter: string

    function Snapshot(): Session
      reads this
    {
      Session(tasks, currentFilter)
    }

    /** The page loads with no tasks and the "all" filter. */
    constructor ()
      ensures tasks == [] && currentFilter == "all"
    {
      tasks := [];
      currentFilter := "all";
    }

    /** `addTask`: push a fresh open task with the trimmed text. */
    method AddTask(id: int, text: string)
      modifies this
      ensures tasks == old(tasks) + [NewTask(id, text)]
      ensures currentFilter == old(currentFilter)
    {
      tasks := tasks + [Task(id, Trim(text), false)];  // the record `NewTask(id, text)`, spelled out
    }

    /** `toggleCompleteTask`: flip `completed` of the first task with the id, if there is one. */
    method ToggleCompleteTask(id: int)
      modifies this
      ensures tasks == Toggled(old(tasks), id)
      ensures currentFilter == old(currentFilter)
    {
      var k := IndexOf(tasks, id);
      if k > -1 {
        tasks := tasks[k := tasks[k].(completed := !tasks[k].completed)];
      }
    }

    /** `editTask`: set the text of the first task with the id to the trimmed new text, if there is one. */
    method EditTask(id: int, newText: string)
      modifies this
      ensures tasks == Edited(old(tasks), id, newText)
      ensures currentFilter == old(currentFilter)
    {
      var k := IndexOf(tasks, id);
      if k > -1 {
        tasks := tasks[k := tasks[k].(text := Trim(newText))];
      }
    }

    /** `deleteTask`: replace the array by the tasks whose id differs. */
    method DeleteTask(id: int)
      modifies this
      ensures tasks == Without(old(tasks), id)
      ensures currentFilter == old(currentFilter)
    {
      tasks := Filter(tasks, (t: Task) => t.id != id);
    }

    /** The form's submit handler: add the input as a task unless it is blank. */
    method OnSubmit(input: string, now: int)
      modifies this
      ensures tasks == if AllWhiteSpace(input) then old(tasks) else old(tasks) + [NewTask(now, input)]
      ensures currentFilter == old(currentFilter)
    {
      if Trim(input) != [] {
        AddTask(now, input);
      }
    }

    /** The list's delegated click handler. */
    method OnListClick(item: Option<int>, action: Action)
      modifies this
      ensures Snapshot() == Step(old(Snapshot()), ListClick(item, action))
    {
      if item.None? {
        return;
      }
      var id := item.value;
      match action
      case CompleteButton =>
        ToggleCompleteTask(id);
      case EditButton(reply) =>
        if reply.Some? && Trim(reply.value) != [] {
          EditTask(id, reply.value);
        }
      case DeleteButton(confirmed) =>
        if confirmed {
          DeleteTask(id);
        }
      case OtherElement =>
    }

    /** A filter button's click handler. */
    method OnFilterClick(filter: string)
      modifies this
      ensures currentFilter == filter && tasks == old(tasks)
    {
      currentFilter := filter;
    }

    /** Any event, as the page's handlers treat it. */
    method Handle(e: Event)
      modifies this
      ensures Snapshot() == Step(old(Snapshot()), e)
    {
      match e
      case Submit(input, now) =>
        OnSubmit(input, now);
      case ListClick(item, action) =>
        OnListClick(item, action);
      case FilterClick(filter) =>
        OnFilterClick(filter);
    }

    /**
     * `renderTasks`: the rows of the tasks the current filter lets through, in
     * store order, each marked done exactly when its task is. It only reads the page.
     */
    method RenderTasks() returns (rows: seq<Row>)
      ensures |rows| == |VisibleTasks(tasks, currentFilter)|
      ensures forall i :: 0 <= i < |rows| ==>
        var t := VisibleTasks(tasks, currentFilter)[i];
        rows[i].id == t.id && rows[i].text == t.text &&
        (HasClass(rows[i].className, "completed") <==> t.completed) &&
        (rows[i].caption == "Desfazer" <==> t.completed)
    {
      rows := Render(tasks, currentFilter);
      RenderShowsVisibleTasks(tasks, currentFilter);
    }
  }

  // ----- The guards -----

  /** A click on the complete button toggles the clicked task. */
  lemma CompleteClickToggles(s: Session, id: int)
    ensures Step(s, ListClick(Some(id), CompleteButton)).tasks == Toggled(s.tasks, id)
  {
  }

  /** A non-blank reply to the edit prompt edits the clicked task. */
  lemma EditReplyEdits(s: Session, id: int, reply: string)
    requires !AllWhiteSpace(reply)
    ensures Step(s, ListClick(Some(id), EditButton(Some(reply)))).tasks == Edited(s.tasks, id, reply)
  {
    assert Trim(reply) != [];
  }

  /** A confirmed delete deletes the clicked task. */
  lemma ConfirmedDeleteDeletes(s: Session, id: int)
    ensures Step(s, ListClick(Some(id), DeleteButton(true))).tasks == Without(s.tasks, id)
  {
  }

  /**
   * No store operation runs on a blank submit, a cancelled or blank edit, an
   * unconfirmed delete, or a click outside the buttons; a filter click
   * changes only the filter, and no other event changes it.
   */
  lemma GuardsBlockMutation(s: Session, e: Event)
    ensures e.Submit? && AllWhiteSpace(e.input) ==> Step(s, e) == s
    ensures e.ListClick? && e.item.None? ==> Step(s, e) == s
    ensures e.ListClick? && e.action.EditButton? && (e.action.reply.None? || AllWhiteSpace(e.action.reply.value)) ==>
      Step(s, e) == s
    ensures e.ListClick? && e.action.DeleteButton? && !e.action.confirmed ==> Step(s, e) == s
    ensures e.ListClick? && e.action.OtherElement? ==> Step(s, e) == s
    ensures e.FilterClick? ==> Step(s, e).tasks == s.tasks
    ensures !e.FilterClick? ==> Step(s, e).filter == s.filter
  {
  }

  /** Submitting two spaces to an empty page leaves it empty. */
  lemma BlankSubmitScenario(now: int)
    ensures Step(Session([], "all"), Submit("  ", now)) == Session([], "all")
  {
    assert IsWhiteSpace(' ');
    assert AllWhiteSpace("  ");
  }

  /**
   * A non-blank submit appends exactly one open task with the given id and the
   * trimmed input, which is non-blank and trimmed, after the unchanged earlier tasks.
   */
  lemma SubmitAppendsOne(s: Session, input: string, now: int)
    requires !AllWhiteSpace(input)
    ensures |Step(s, Submit(input, now)).tasks| == |s.tasks| + 1
    ensures Step(s, Submit(input, now)).tasks[..|s.tasks|] == s.tasks
    ensures var t := Step(s, Submit(input, now)).tasks[|s.tasks|];
      t.id == now && !t.completed && t.text == Trim(input) && t.text != [] && Trim(t.text) == t.text
  {
    TrimIdempotent(input);
    assert (s.tasks + [NewTask(now, input)])[..|s.tasks|] == s.tasks;
  }

  /** Every handled event keeps all texts non-blank and trimmed. */
  lemma StepKeepsTextsTrimmed(s: Session, e: Event)
    requires TrimmedTexts(s.tasks)
    ensures TrimmedTexts(Step(s, e).tasks)
  {
    match e
    case Submit(input, now) =>
      if Trim(input) != [] {
        TrimIdempotent(input);
        AppendKeepsTextsTrimmed(s.tasks, NewTask(now, input));
      }
    case ListClick(None, _) =>
    case ListClick(Some(id), action) =>
      match action {
        case CompleteButton =>
          ToggledKeepsTextsTrimmed(s.tasks, id);
        case EditButton(reply) =>
          if reply.Some? && Trim(reply.value) != [] {
            EditedKeepsTextsTrimmed(s.tasks, id, reply.value);
          }
        case DeleteButton(confirmed) =>
          assert TrimmedTexts(Without(s.tasks, id));
        case OtherElement =>
      }
    case FilterClick(_) =>
  }

  /**
   * Ids stay pairwise distinct under every event, provided a submit brings an
   * id no task has: the page relies on `Date.now()` for that and never checks it.
   */
  lemma StepKeepsIdsUnique(s: Session, e: Event)
    requires UniqueIds(s.tasks)
    requires e.Submit? ==> !HasId(s.tasks, e.now)
    ensures UniqueIds(Step(s, e).tasks)
  {
    match e
    case Submit(input, now) =>
      AppendKeepsIdsUnique(s.tasks, NewTask(now, input));
    case ListClick(None, _) =>
    case ListClick(Some(id), action) =>
      match action {
        case CompleteButton =>
          ToggledFlipsFirstMatch(s.tasks, id);
        case EditButton(reply) =>
          EditedRewritesFirstMatch(s.tasks, id, if reply.Some? then reply.value else []);
        case DeleteButton(confirmed) =>
          WithoutKeepsIdsUnique(s.tasks, id);
        case OtherElement =>
      }
    case FilterClick(_) =>
  }
}
