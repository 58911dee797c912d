/**
 * The task store of script.js as values: a task record, the filter predicate
 * of `renderTasks`, and what `toggleCompleteTask`, `editTask` and `deleteTask`
 * make of the task sequence. Tasks are located by id with `===`; nothing in
 * script.js keeps ids distinct, so no lemma here assumes they are unless it
 * says so.
 */
module Tasks {
  import opened Text
  import opened Arrays

  /** A `{id, text, completed}` record of the `tasks` array. */
  datatype Task = Task(id: int, text: string, completed: bool)

  /** The record `addTask` builds from the raw input and the id it is given. */
  function NewTask(id: int, input: string): (t: Task)
    ensures t.id == id && !t.completed
    ensures t.text == [] <==> AllWhiteSpace(input)
    ensures Trim(t.text) == t.text
  {
    TrimIdempotent(input);
    Task(id, Trim(input), false)
  }

  /** Does `currentFilter` let `t` through? Any value other than the two named ones shows everything. */
  predicate Shows(filter: string, t: Task): (b: bool)
    ensures !b <==> (filter == "pending" && t.completed) || (filter == "completed" && !t.completed)
  {
    if filter == "pending" then !t.completed
    else if filter == "completed" then t.completed
    else true
  }

  /** The `filteredTasks` of `renderTasks`. */
  function VisibleTasks(tasks: seq<Task>, filter: string): (r: seq<Task>)
    ensures forall t :: t in r <==> t in tasks && Shows(filter, t)
    ensures IsSubsequence(r, tasks)
  {
    FilterIsSubsequence(tasks, (t: Task) => Shows(filter, t));
    Filter(tasks, (t: Task) => Shows(filter, t))
  }

  /** The index `findIndex(t => t.id === id)` returns. */
  function IndexOf(tasks: seq<Task>, id: int): (k: int)
    ensures -1 <= k < |tasks|
    ensures 0 <= k ==> tasks[k].id == id
  {
    FindIndex(tasks, (t: Task) => t.id == id)
  }

  /** `j` is where the first task with this id sits. */
  predicate IsFirstMatch(tasks: seq<Task>, id: int, j: int) {
    0 <= j < |tasks| && tasks[j].id == id && forall i :: 0 <= i < j ==> tasks[i].id != id
  }

  predicate HasId(tasks: seq<Task>, id: int) {
    exists t :: t in tasks && t.id == id
  }

  /** Ids pairwise distinct: what the page hopes `Date.now()` gives, not something it checks. */
  predicate UniqueIds(tasks: seq<Task>) {
    forall i, j :: 0 <= i < j < |tasks| ==> tasks[i].id != tasks[j].id
  }

  /** Every text is non-blank and already trimmed. */
  predicate TrimmedTexts(tasks: seq<Task>) {
    forall t :: t in tasks ==> t.text != [] && Trim(t.text) == t.text
  }

  /** The store after `toggleCompleteTask(id)`. */
  function Toggled(tasks: seq<Task>, id: int): (r: seq<Task>)
    ensures |r| == |tasks|
  {
    var k := IndexOf(tasks, id);
    if k > -1 then tasks[k := tasks[k].(completed := !tasks[k].completed)] else tasks
  }

  /** The store after `editTask(id, newText)`. */
  function Edited(tasks: seq<Task>, id: int, newText: string): (r: seq<Task>)
    ensures |r| == |tasks|
  {
    var k := IndexOf(tasks, id);
    if k > -1 then tasks[k := tasks[k].(text := Trim(newText))] else tasks
  }

  /** The store after `deleteTask(id)`. */
  function Without(tasks: seq<Task>, id: int): (r: seq<Task>)
    ensures |r| <= |tasks|
    ensures forall t :: t in r <==> t in tasks && t.id != id
  {
    Filter(tasks, (t: Task) => t.id != id)
  }

  /** The tasks `deleteTask(id)` drops. */
  function Matching(tasks: seq<Task>, id: int): seq<Task> {
    Filter(tasks, (t: Task) => t.id == id)
  }

  // ----- Filtering -----

  /**
   * "pending" shows exactly the open tasks and "completed" exactly the done
   * ones, each in store order; between them they account for every task once.
   */
  lemma FilterPendingCompleted(tasks: seq<Task>)
    ensures forall t :: t in VisibleTasks(tasks, "pending") <==> t in tasks && !t.completed
    ensures forall t :: t in VisibleTasks(tasks, "completed") <==> t in tasks && t.completed
    ensures IsSubsequence(VisibleTasks(tasks, "pending"), tasks)
    ensures IsSubsequence(VisibleTasks(tasks, "completed"), tasks)
    ensures multiset(VisibleTasks(tasks, "pending")) + multiset(VisibleTasks(tasks, "completed")) == multiset(tasks)
    ensures |VisibleTasks(tasks, "pending")| + |VisibleTasks(tasks, "completed")| == |tasks|
  {
    var p := (t: Task) => Shows("pending", t);
    var c := (t: Task) => Shows("completed", t);
    FilterIsSubsequence(tasks, p);
    FilterIsSubsequence(tasks, c);
    FilterPartition(tasks, p, c);
  }

  /** "all", and every value other than "pending" and "completed", shows the whole store unchanged. */
  lemma FilterOtherShowsAll(tasks: seq<Task>, filter: string)
    requires filter != "pending" && filter != "completed"
    ensures VisibleTasks(tasks, filter) == tasks
  {
    FilterKeepsAll(tasks, (t: Task) => Shows(filter, t));
  }

  /** Filtering the visible list again with the same filter changes nothing. */
  lemma FilterIdempotentOnTasks(tasks: seq<Task>, filter: string)
    ensures VisibleTasks(VisibleTasks(tasks, filter), filter) == VisibleTasks(tasks, filter)
  {
    FilterIdempotent(tasks, (t: Task) => Shows(filter, t));
  }

  /** The visible list of a longer store extends the visible list of its prefix: store order is display order. */
  lemma FilterFollowsStoreOrder(front: seq<Task>, back: seq<Task>, filter: string)
    ensures VisibleTasks(front + back, filter) == VisibleTasks(front, filter) + VisibleTasks(back, filter)
  {
    FilterAppend(front, back, (t: Task) => Shows(filter, t));
  }

  /** One open and one done task under "completed": only the done one is shown. */
  lemma FilterScenarioCompleted()
    ensures VisibleTasks([Task(1, "A", false), Task(2, "B", true)], "completed") == [Task(2, "B", true)]
  {
    var s := [Task(1, "A", false), Task(2, "B", true)];
    assert s[1..] == [Task(2, "B", true)];
    assert s[1..][1..] == [];
  }

  // ----- Locating a task -----

  /** `IndexOf` is -1 exactly for an unknown id, and otherwise the first match. */
  lemma IndexOfFirstMatch(tasks: seq<Task>, id: int)
    ensures IndexOf(tasks, id) == -1 <==> !HasId(tasks, id)
    ensures IndexOf(tasks, id) != -1 ==> IsFirstMatch(tasks, id, IndexOf(tasks, id))
  {
    var k := IndexOf(tasks, id);
    if k != -1 {
      assert tasks[k] in tasks;
    }
  }

  /** Changing fields other than `id` does not move the first match. */
  lemma IndexOfSameIds(tasks: seq<Task>, other: seq<Task>, id: int)
    requires |tasks| == |other|
    requires forall j :: 0 <= j < |tasks| ==> tasks[j].id == other[j].id
    ensures IndexOf(tasks, id) == IndexOf(other, id)
  {
    FindIndexCongruent(tasks, other, (t: Task) => t.id == id);
  }

  // ----- toggleCompleteTask -----

  /**
   * Toggling flips `completed` on the first task with the id and nowhere else;
   * length, order, ids and texts stay as they were.
   */
  lemma ToggledFlipsFirstMatch(tasks: seq<Task>, id: int)
    ensures |Toggled(tasks, id)| == |tasks|
    ensures forall j :: 0 <= j < |tasks| ==>
      Toggled(tasks, id)[j].id == tasks[j].id && Toggled(tasks, id)[j].text == tasks[j].text &&
      (Toggled(tasks, id)[j].completed != tasks[j].completed <==> IsFirstMatch(tasks, id, j))
  {
    IndexOfFirstMatch(tasks, id);
  }

  /** Toggling an id no task has leaves the store as it was. */
  lemma ToggleUnknownIsNoop(tasks: seq<Task>, id: int)
    requires !HasId(tasks, id)
    ensures Toggled(tasks, id) == tasks
  {
    IndexOfFirstMatch(tasks, id);
  }

  /** Toggling the same id twice restores the store. */
  lemma ToggleTwice(tasks: seq<Task>, id: int)
    ensures Toggled(Toggled(tasks, id), id) == tasks
  {
    var once := Toggled(tasks, id);
    IndexOfSameIds(tasks, once, id);
  }

  /** Toggling the only task of a one-task store marks it done. */
  lemma ToggleScenario()
    ensures Toggled([Task(1, "Buy milk", false)], 1) == [Task(1, "Buy milk", true)]
  {
    IndexOfFirstMatch([Task(1, "Buy milk", false)], 1);
  }

  // ----- editTask -----

  /**
   * Editing sets the text of the first task with the id to the trimmed new
   * text; every id and completion flag, every other text and the length stay.
   */
  lemma EditedRewritesFirstMatch(tasks: seq<Task>, id: int, newText: string)
    ensures |Edited(tasks, id, newText)| == |tasks|
    ensures forall j :: 0 <= j < |tasks| ==>
      Edited(tasks, id, newText)[j].id == tasks[j].id &&
      Edited(tasks, id, newText)[j].completed == tasks[j].completed &&
      Edited(tasks, id, newText)[j].text == (if IsFirstMatch(tasks, id, j) then Trim(newText) else tasks[j].text)
  {
    IndexOfFirstMatch(tasks, id);
  }

  /** Editing an id no task has leaves the store as it was. */
  lemma EditUnknownIsNoop(tasks: seq<Task>, id: int, newText: string)
    requires !HasId(tasks, id)
    ensures Edited(tasks, id, newText) == tasks
  {
    IndexOfFirstMatch(tasks, id);
  }

  /** The last edit wins: editing the same id twice is the second edit alone. */
  lemma EditTwice(tasks: seq<Task>, id: int, first: string, second: string)
    ensures Edited(Edited(tasks, id, first), id, second) == Edited(tasks, id, second)
  {
    var once := Edited(tasks, id, first);
    EditedKeepsIds(tasks, id, first);
    IndexOfSameIds(tasks, once, id);
    var k := IndexOf(tasks, id);
    if k > -1 {
      UpdateTwice(tasks, k, tasks[k].(text := Trim(first)), tasks[k].(text := Trim(second)));
    }
  }

  lemma EditedKeepsIds(tasks: seq<Task>, id: int, newText: string)
    ensures |Edited(tasks, id, newText)| == |tasks|
    ensures forall j :: 0 <= j < |tasks| ==> Edited(tasks, id, newText)[j].id == tasks[j].id
  {
  }

  lemma UpdateTwice<T>(s: seq<T>, k: nat, a: T, b: T)
    requires k < |s|
    ensures s[k := a][k := b] == s[k := b]
  {
  }

  // ----- deleteTask -----

  /**
   * Deleting drops every task with the id and only those: the survivors keep
   * their relative order, and the store shrinks by the number of matches.
   */
  lemma WithoutDropsAllMatches(tasks: seq<Task>, id: int)
    ensures forall t :: t in Without(tasks, id) <==> t in tasks && t.id != id
    ensures IsSubsequence(Without(tasks, id), tasks)
    ensures multiset(Without(tasks, id)) + multiset(Matching(tasks, id)) == multiset(tasks)
    ensures |Without(tasks, id)| == |tasks| - |Matching(tasks, id)|
  {
    FilterIsSubsequence(tasks, (t: Task) => t.id != id);
    FilterPartition(tasks, (t: Task) => t.id != id, (t: Task) => t.id == id);
  }

  /** Deleting an id no task has leaves the store as it was. */
  lemma DeleteUnknownIsNoop(tasks: seq<Task>, id: int)
    requires !HasId(tasks, id)
    ensures Without(tasks, id) == tasks
  {
    FilterKeepsAll(tasks, (t: Task) => t.id != id);
  }

  /** With distinct ids, an id matches at most one task. */
  lemma {:induction false} AtMostOneMatch(tasks: seq<Task>, id: int)
    requires UniqueIds(tasks)
    ensures |Matching(tasks, id)| <= 1
  {
    if tasks != [] {
      var rest := tasks[1..];
      UniqueIdsTail(tasks);
      AtMostOneMatch(rest, id);
      if tasks[0].id == id {
        FilterDropsAll(rest, (t: Task) => t.id == id);
      }
    }
  }

  /** With distinct ids, deleting a present id removes exactly one task. */
  lemma DeleteUniqueRemovesOne(tasks: seq<Task>, id: int)
    requires UniqueIds(tasks) && HasId(tasks, id)
    ensures |Without(tasks, id)| == |tasks| - 1
  {
    WithoutDropsAllMatches(tasks, id);
    AtMostOneMatch(tasks, id);
    var t :| t in tasks && t.id == id;
    assert t in Matching(tasks, id);
  }

  lemma UniqueIdsTail(tasks: seq<Task>)
    requires UniqueIds(tasks) && tasks != []
    ensures UniqueIds(tasks[1..])
    ensures forall t :: t in tasks[1..] ==> t.id != tasks[0].id
  {
    var rest := tasks[1..];
    forall i, j | 0 <= i < j < |rest| ensures rest[i].id != rest[j].id {
      assert rest[i] == tasks[i + 1] && rest[j] == tasks[j + 1];
    }
    forall t | t in rest ensures t.id != tasks[0].id {
      var k :| 0 <= k < |rest| && rest[k] == t;
      assert tasks[k + 1] == t;
    }
  }

  /** Deleting keeps distinct ids distinct. */
  lemma {:induction false} WithoutKeepsIdsUnique(tasks: seq<Task>, id: int)
    requires UniqueIds(tasks)
    ensures UniqueIds(Without(tasks, id))
  {
    if tasks != [] {
      var rest := tasks[1..];
      UniqueIdsTail(tasks);
      WithoutKeepsIdsUnique(rest, id);
      if tasks[0].id != id {
        assert Without(tasks, id) == [tasks[0]] + Without(rest, id);
        PrependKeepsIdsUnique(tasks[0], Without(rest, id));
      } else {
        assert Without(tasks, id) == Without(rest, id);
      }
    }
  }

  /** A task whose id none of a store's distinct ids equals can go in front. */
  lemma PrependKeepsIdsUnique(t: Task, tasks: seq<Task>)
    requires UniqueIds(tasks) && forall u :: u in tasks ==> u.id != t.id
    ensures UniqueIds([t] + tasks)
  {
    var r := [t] + tasks;
    forall i, j | 0 <= i < j < |r| ensures r[i].id != r[j].id {
      assert r[j] == tasks[j - 1] && tasks[j - 1] in tasks;
      if i > 0 {
        assert r[i] == tasks[i - 1];
      }
    }
  }

  /** Appending a task whose id no task has keeps ids distinct. */
  lemma AppendKeepsIdsUnique(tasks: seq<Task>, t: Task)
    requires UniqueIds(tasks) && !HasId(tasks, t.id)
    ensures UniqueIds(tasks + [t])
  {
    var r := tasks + [t];
    forall i, j | 0 <= i < j < |r| ensures r[i].id != r[j].id {
      if j == |tasks| {
        assert r[i] == tasks[i] && tasks[i] in tasks;
      }
    }
  }

  /** Toggling never touches a text, so texts that were non-blank and trimmed stay so. */
  lemma ToggledKeepsTextsTrimmed(tasks: seq<Task>, id: int)
    requires TrimmedTexts(tasks)
    ensures TrimmedTexts(Toggled(tasks, id))
  {
    ToggledFlipsFirstMatch(tasks, id);
    var r := Toggled(tasks, id);
    forall t | t in r ensures t.text != [] && Trim(t.text) == t.text {
      var j :| 0 <= j < |r| && r[j] == t;
      assert tasks[j] in tasks;
    }
  }

  /** An edit with a non-blank new text keeps every text non-blank and trimmed. */
  lemma EditedKeepsTextsTrimmed(tasks: seq<Task>, id: int, newText: string)
    requires TrimmedTexts(tasks) && !AllWhiteSpace(newText)
    ensures TrimmedTexts(Edited(tasks, id, newText))
  {
    EditedRewritesFirstMatch(tasks, id, newText);
    TrimIdempotent(newText);
    var r := Edited(tasks, id, newText);
    forall t | t in r ensures t.text != [] && Trim(t.text) == t.text {
      var j :| 0 <= j < |r| && r[j] == t;
      assert tasks[j] in tasks;
    }
  }

  /** Appending a task with a non-blank trimmed text keeps every text non-blank and trimmed. */
  lemma AppendKeepsTextsTrimmed(tasks: seq<Task>, t: Task)
    requires TrimmedTexts(tasks) && t.text != [] && Trim(t.text) == t.text
    ensures TrimmedTexts(tasks + [t])
  {
  }
}
