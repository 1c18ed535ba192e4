/**
 * The server actions of src/actions/index.ts: create a snippet from a
 * submitted form, rewrite a snippet's code, delete a snippet.
 *
 * The database behind them is a `SnippetStore`: the snippet table as a map
 * from id to row, and the counter the table draws new ids from. A database
 * call that finds no row with the given id throws, and the action does not
 * catch it, so its caller sees a rejected promise (`Threw`). Every action
 * that succeeds ends with `redirect(...)`, which is an outcome of its own
 * here, distinct from a returned message.
 */
module Actions {
  import opened JsText
  import opened Optional

  /** One row of the snippet table; `tags` is the JSON text of its tag list. */
  datatype Snippet = Snippet(id: int, title: JsString, code: JsString, tags: JsString)

  /** The pages an action redirects to: `/` and `/snippet/{id}`. */
  datatype Route = Home | SnippetPage(id: int)

  /** How a call of a server action ends, as its caller sees it. */
  datatype ActionOutcome =
    | Returned(message: string)  // the promise resolves to `{ message }`
    | Redirected(to: Route)      // `redirect(...)` ends the action and the browser navigates
    | Threw                      // the promise rejects

  /** What `formData.get(name)` gives: no entry, a text entry, or an uploaded file. */
  datatype FormValue = Missing | Text(text: JsString) | Upload

  const TitleRequired: string := "Title is required"
  const CodeRequired: string := "Code is required"

  /** `typeof v === "string" && v.trim() !== ""`. */
  predicate IsFilled(v: FormValue)
    ensures IsFilled(v) <==> v.Text? && HasVisible(v.text)
  {
    v.Text? && Trim(v.text) != []
  }

  /**
   * The message `createSnippet` answers with, or None when it accepts the
   * form: the title is checked first, then the code.
   */
  function CreateError(title: FormValue, code: FormValue): (r: Option<string>)
    ensures r.None? <==> IsFilled(title) && IsFilled(code)
    ensures r.Some? ==> r.value == TitleRequired || r.value == CodeRequired
    ensures r == Some(CodeRequired) ==> IsFilled(title)
    ensures r == Some(TitleRequired) <==> !IsFilled(title)
  {
    if !IsFilled(title) then Some(TitleRequired)
    else if !IsFilled(code) then Some(CodeRequired)
    else None
  }

  /**
   * A field is accepted when it is text holding at least one character that
   * is not whitespace; a form is accepted when both fields are, and a
   * rejected form is answered with the message of the first field that is
   * not accepted.
   */
  lemma CreateErrorMeaning(title: FormValue, code: FormValue)
    ensures CreateError(title, code).None? <==>
              title.Text? && HasVisible(title.text) && code.Text? && HasVisible(code.text)
    ensures !(title.Text? && HasVisible(title.text)) ==>
              CreateError(title, code) == Some(TitleRequired)
    ensures (title.Text? && HasVisible(title.text) && !(code.Text? && HasVisible(code.text)))
              ==> CreateError(title, code) == Some(CodeRequired)
  {
  }

  /** Every row sits under its own id, and every id is below `nextId`. */
  ghost predicate RowsBelow(rows: map<int, Snippet>, nextId: int) {
    1 <= nextId &&
    forall id :: id in rows ==> 1 <= id < nextId && rows[id].id == id
  }

  /** Adding a row under the next id keeps the table well formed, one id further on. */
  lemma InsertKeepsRowsBelow(rows: map<int, Snippet>, nextId: int, row: Snippet)
    requires RowsBelow(rows, nextId) && row.id == nextId
    ensures nextId !in rows
    ensures RowsBelow(rows[nextId := row], nextId + 1)
  {
  }

  class SnippetStore {
    /** The snippet table, by id. */
    var rows: map<int, Snippet>
    /** The id the table gives the next row it creates. */
    var nextId: int
    /** What the table stores in `tags` when a row is created without tags. */
    const defaultTags: JsString

    /** Every row sits under its own id, and ids are handed out only once. */
    ghost predicate Valid()
      reads this
    {
      RowsBelow(rows, nextId)
    }

    constructor (defaultTags: JsString)
      ensures Valid()
      ensures rows == map[] && nextId == 1 && this.defaultTags == defaultTags
    {
      rows := map[];
      nextId := 1;
      this.defaultTags := defaultTags;
    }

    /**
     * `createSnippet(previous, formData)`: checks the title, then the code;
     * on the first failure it answers with that message and writes
     * nothing. Otherwise it adds one row holding the title and the code as
     * submitted (not trimmed) and redirects to the list.
     */
    method CreateSnippet(title: FormValue, code: FormValue) returns (r: ActionOutcome)
      requires Valid()
      modifies this`rows, this`nextId
      ensures Valid()
      ensures CreateError(title, code).Some? ==>
                r == Returned(CreateError(title, code).value) &&
                rows == old(rows) && nextId == old(nextId)
      ensures CreateError(title, code).None? ==>
                r == Redirected(Home) &&
                old(nextId) !in old(rows) &&
                rows == old(rows)[old(nextId) := Snippet(old(nextId), title.text, code.text, defaultTags)] &&
                nextId == old(nextId) + 1
    {
      var error := CreateError(title, code);
      if error.Some? {
        return Returned(error.value);
      }
      var id := nextId;
      var row := Snippet(id, title.text, code.text, defaultTags);
      InsertKeepsRowsBelow(rows, id, row);
      rows := rows[id := row];
      nextId := nextId + 1;
      r := Redirected(Home);
    }

    /**
     * `saveSnippet(id, code)`: rewrites the code of row `id`, and nothing
     * else, then redirects to that snippet's page; with no such row the
     * update throws and nothing changes.
     */
    method SaveSnippet(id: int, code: JsString) returns (r: ActionOutcome)
      requires Valid()
      modifies this`rows
      ensures Valid()
      ensures id in old(rows) ==> r == Redirected(SnippetPage(id))
      ensures id !in old(rows) ==> r == Threw && rows == old(rows)
      ensures rows.Keys == old(rows).Keys
      ensures id in rows ==>
                rows[id].code == code && rows[id].id == id &&
                rows[id].title == old(rows)[id].title && rows[id].tags == old(rows)[id].tags
      ensures forall k :: k in rows && k != id ==> rows[k] == old(rows)[k]
    {
      if id !in rows {
        return Threw;
      }
      rows := rows[id := rows[id].(code := code)];
      r := Redirected(SnippetPage(id));
    }

    /**
     * `deleteSnippet(id)`: removes row `id`, and no other, then redirects to
     * the list; with no such row the delete throws and nothing changes.
     */
    method DeleteSnippet(id: int) returns (r: ActionOutcome)
      requires Valid()
      modifies this`rows
      ensures Valid()
      ensures id in old(rows) ==> r == Redirected(Home) && rows == old(rows) - {id}
      ensures id !in old(rows) ==> r == Threw && rows == old(rows)
      ensures id !in rows
      ensures forall k :: k != id ==> (k in rows <==> k in old(rows)) && (k in rows ==> rows[k] == old(rows)[k])
    {
      if id !in rows {
        return Threw;
      }
      rows := rows - {id};
      r := Redirected(Home);
    }
  }
}
