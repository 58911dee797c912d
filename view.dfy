/**
 * What `createTaskElement` derives from a task and what `renderTasks` shows:
 * the `className` of the list item, the caption of its complete button, and
 * the rows of the filtered list. Element construction itself is not modelled.
 */
module View {
  import opened Tasks

  /** One rendered `li.task-item`: the `data-id`, the text span, the class attribute and the complete button's caption. */
  datatype Row = Row(id: int, text: string, className: string, caption: string)

  /** The class attribute: `task-item ${task.completed ? 'completed' : ''}`. */
  function ItemClass(t: Task): string {
    "task-item " + (if t.completed then "completed" else "")
  }

  /** The complete button's caption: undo for a done task, complete for an open one. */
  function ButtonLabel(t: Task): (c: string)
    ensures c == "Desfazer" || c == "Concluir"
  {
    if t.completed then "Desfazer" else "Concluir"
  }

  function RowOf(t: Task): Row {
    Row(t.id, t.text, ItemClass(t), ButtonLabel(t))
  }

  /** The rows `renderTasks` appends, one per visible task, in order. */
  function Render(tasks: seq<Task>, filter: string): (rows: seq<Row>)
    ensures |rows| == |VisibleTasks(tasks, filter)|
    ensures forall i :: 0 <= i < |rows| ==> rows[i].id == VisibleTasks(tasks, filter)[i].id
  {
    var visible := VisibleTasks(tasks, filter);
    seq(|visible|, i requires 0 <= i < |visible| => RowOf(visible[i]))
  }

  // ----- Class attribute as a token list (how `classList` reads it) -----

  /** ASCII white space, which separates the tokens of a class attribute in HTML. */
  predicate IsAsciiSpace(c: char) {
    c == ' ' || c == '\t' || c == '\n' || c == '\r' || c == '\U{000C}'
  }

  /** Length of the token at the front of `s`: the run of non-space characters there. */
  function TokenLength(s: string): (n: nat)
    ensures n <= |s|
    ensures forall i :: 0 <= i < n ==> !IsAsciiSpace(s[i])
    ensures n < |s| ==> IsAsciiSpace(s[n])
  {
    if s == [] || IsAsciiSpace(s[0]) then 0 else 1 + TokenLength(s[1..])
  }

  /** The tokens of a class attribute, in order. */
  function Tokens(s: string): seq<string>
    decreases |s|
  {
    if s == [] then []
    else if IsAsciiSpace(s[0]) then Tokens(s[1..])
    else
      var n := TokenLength(s);
      [s[..n]] + Tokens(s[n..])
  }

  /** `element.classList.contains(c)` for an element with this class attribute. */
  predicate HasClass(className: string, c: string) {
    c in Tokens(className)
  }

  /** A word without spaces, followed by a space or nothing, is the first token. */
  lemma TokensOfWord(w: string, rest: string)
    requires w != [] && forall i :: 0 <= i < |w| ==> !IsAsciiSpace(w[i])
    requires rest == [] || IsAsciiSpace(rest[0])
    ensures Tokens(w + rest) == [w] + Tokens(rest)
  {
    var s := w + rest;
    WordTokenLength(w, rest);
    assert s[..|w|] == w && s[|w|..] == rest;
  }

  lemma {:induction false} WordTokenLength(w: string, rest: string)
    requires forall i :: 0 <= i < |w| ==> !IsAsciiSpace(w[i])
    requires rest == [] || IsAsciiSpace(rest[0])
    ensures TokenLength(w + rest) == |w|
  {
    if w == [] {
      assert w + rest == rest;
    } else {
      assert (w + rest)[0] == w[0];
      assert (w + rest)[1..] == w[1..] + rest;
      WordTokenLength(w[1..], rest);
    }
  }

  /**
   * The list item carries the `completed` class exactly when the task is done,
   * and always the `task-item` class by which the click handler finds it.
   */
  lemma CompletedClass(t: Task)
    ensures HasClass(ItemClass(t), "completed") <==> t.completed
    ensures HasClass(ItemClass(t), "task-item")
  {
    var item := "task-item";
    assert forall i :: 0 <= i < |item| ==> !IsAsciiSpace(item[i]);
    if t.completed {
      var done := "completed";
      assert forall i :: 0 <= i < |done| ==> !IsAsciiSpace(done[i]);
      assert ItemClass(t) == item + (" " + done);
      TokensOfWord(item, " " + done);
      assert (" " + done)[1..] == done;
      TokensOfWord(done, []);
      assert done + [] == done;
    } else {
      assert ItemClass(t) == item + " ";
      TokensOfWord(item, " ");
      assert " "[1..] == [];
      assert "completed"[0] != item[0];
    }
  }

  /** The caption reads "Desfazer" exactly for a done task and "Concluir" exactly for an open one. */
  lemma LabelMatchesState(t: Task)
    ensures ButtonLabel(t) == "Desfazer" <==> t.completed
    ensures ButtonLabel(t) == "Concluir" <==> !t.completed
  {
    assert "Desfazer"[0] != "Concluir"[0];
  }

  /**
   * Rendering shows one row per visible task, in order, each with the task's id
   * and text, the `completed` class and "Desfazer" caption exactly when it is
   * done. Toggling a task therefore flips both markers of its row.
   */
  lemma RenderShowsVisibleTasks(tasks: seq<Task>, filter: string)
    ensures |Render(tasks, filter)| == |VisibleTasks(tasks, filter)|
    ensures forall i :: 0 <= i < |Render(tasks, filter)| ==>
      var t, r := VisibleTasks(tasks, filter)[i], Render(tasks, filter)[i];
      r.id == t.id && r.text == t.text &&
      (HasClass(r.className, "completed") <==> t.completed) &&
      (r.caption == "Desfazer" <==> t.completed)
  {
    var visible := VisibleTasks(tasks, filter);
    forall i | 0 <= i < |visible|
      ensures HasClass(ItemClass(visible[i]), "completed") <==> visible[i].completed
      ensures ButtonLabel(visible[i]) == "Desfazer" <==> visible[i].completed
    {
      CompletedClass(visible[i]);
      LabelMatchesState(visible[i]);
    }
  }
}
