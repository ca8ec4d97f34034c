/**
 * The postable-tasks API (app/api/postable/tasks/route.ts): list tasks with
 * an optional status filter, create a task from a validated title with
 * defaults for the other columns, and patch a task with whichever of
 * `title`, `notes` and `status` the request carries. The Supabase table
 * calls are parameters.
 */
module PostableTasks {
  import opened Wrappers
  import opened JsValues
  import Strings
  import EventsTable

  /** What one Supabase call on `postable_tasks` gave back. */
  datatype DbCall =
    | Returned(data: JsValue)
    | Failed(error: EventsTable.DbError)
    | Threw(message: Option<string>)      // `None`: the thrown value is not an `Error`

  /** The request body: parsed JSON, or the parser's error message. */
  datatype Body = Parsed(value: JsValue) | Unparsable(message: string)

  datatype TasksResponse =
    | TaskList(tasks: JsValue, source: string)      // `{ tasks, source }`
    | TaskBody(task: JsValue)                       // `{ task }`
    | TasksError(status: nat, error: string)
    | DestructureFailed                             // a `null` body: 500 with the runtime's TypeError message

  const NotConfigured := "Supabase not configured"

  // ---------------------------------------------------------------------
  // GET
  // ---------------------------------------------------------------------

  /** `if (status) query = query.eq('status', status)`: an empty or absent parameter filters nothing. */
  function StatusFilter(status: Option<string>): (filter: Option<string>)
    ensures filter.Some? <==> status.Some? && status.value != ""
    ensures filter.Some? ==> filter == status
  {
    if status.Some? && status.value != "" then status else None
  }

  /** `GET`: `query` is the select, given the status filter it runs with. */
  function GetTasks(configured: bool, status: Option<string>, query: Option<string> -> DbCall): (r: TasksResponse)
    ensures r.TaskList?
    ensures !configured ==> r == TaskList(JArray([]), "none")
    ensures configured && query(StatusFilter(status)).Returned? ==>
      var data := query(StatusFilter(status)).data;
      r.source == "supabase" && (Truthy(Some(data)) ==> r.tasks == data) && (!Truthy(Some(data)) ==> r.tasks == JArray([]))
    ensures configured && !query(StatusFilter(status)).Returned? ==> r == TaskList(JArray([]), "error")
  {
    if !configured then TaskList(JArray([]), "none")
    else match query(StatusFilter(status))
      case Returned(data) => TaskList(if Truthy(Some(data)) then data else JArray([]), "supabase")
      case Failed(_) => TaskList(JArray([]), "error")
      case Threw(_) => TaskList(JArray([]), "error")
  }

  // ---------------------------------------------------------------------
  // POST
  // ---------------------------------------------------------------------

  /** `!title || typeof title !== 'string' || !title.trim()` fails exactly when this does not hold. */
  predicate ValidTitle(title: Option<JsValue>) {
    title.Some? && title.value.JStr? && Strings.Trim(title.value.s) != ""
  }

  /** `v || fallback`. */
  function Or(v: Option<JsValue>, fallback: JsValue): (r: JsValue)
    ensures Truthy(v) ==> r == v.value
    ensures !Truthy(v) ==> r == fallback
  {
    if Truthy(v) then v.value else fallback
  }

  /** The row to insert: the trimmed title, and `notes`, `posting_idea` and `status` with their defaults. */
  function NewTaskRow(body: JsValue): (r: Result<Record, string>)
    ensures r.Err? <==> !ValidTitle(Prop(Some(body), "title"))
    ensures r.Err? ==> r.error == "Title is required"
    ensures r.Ok? ==>
      var title := Prop(Some(body), "title");
      title.Some? && title.value.JStr?
      && r.value.Keys == {"title", "notes", "posting_idea", "status"}
      && r.value["title"] == JStr(Strings.Trim(title.value.s))
      && r.value["notes"] == Or(Prop(Some(body), "notes"), JStr(""))
      && r.value["posting_idea"] == Or(Prop(Some(body), "posting_idea"), JNull)
      && r.value["status"] == Or(Prop(Some(body), "status"), JStr("active"))
  {
    var title := Prop(Some(body), "title");
    if !Truthy(title) || !title.value.JStr? || Strings.Trim(title.value.s) == "" then Err("Title is required")
    else
      var trimmed := JStr(Strings.Trim(title.value.s));
      var notes := Or(Prop(Some(body), "notes"), JStr(""));
      var postingIdea := Or(Prop(Some(body), "posting_idea"), JNull);
      var status := Or(Prop(Some(body), "status"), JStr("active"));
      Ok(TaskRow(trimmed, notes, postingIdea, status))
  }

  /** The four columns of a new row, each under its own key. */
  function TaskRow(title: JsValue, notes: JsValue, postingIdea: JsValue, status: JsValue): (row: Record)
    ensures row.Keys == {"title", "notes", "posting_idea", "status"}
    ensures row["title"] == title && row["notes"] == notes
    ensures row["posting_idea"] == postingIdea && row["status"] == status
  {
    assert "title"[0] == 't' && "notes"[0] == 'n' && "posting_idea"[0] == 'p' && "status"[0] == 's';
    map["title" := title, "notes" := notes, "posting_idea" := postingIdea, "status" := status]
  }

  /** A stored title is never blank and never starts or ends with whitespace. */
  lemma StoredTitleIsTrimmed(body: JsValue)
    requires NewTaskRow(body).Ok?
    ensures var t := NewTaskRow(body).value["title"];
      t.JStr? && t.s != [] && !Strings.IsJsWhitespace(t.s[0]) && !Strings.IsJsWhitespace(t.s[|t.s| - 1])
  {
  }

  /** The answer to a failed, thrown or successful Supabase write. */
  function WriteResponse(call: DbCall): (r: TasksResponse)
    ensures call.Returned? ==> r == TaskBody(call.data)
    ensures call.Failed? ==> r == TasksError(500, call.error.message)
    ensures call.Threw? ==> r == TasksError(500, call.message.GetOr("Unknown error"))
  {
    match call
    case Returned(data) => TaskBody(data)
    case Failed(e) => TasksError(500, e.message)
    case Threw(m) => TasksError(500, m.GetOr("Unknown error"))
  }

  /** The error for a body that could not be read. */
  function BodyFailure(body: Body): TasksResponse
    requires body.Unparsable? || body.value == JNull
  {
    if body.Unparsable? then TasksError(500, body.message) else DestructureFailed
  }

  /** `POST`: `insert` is the insert of one row. */
  function PostTask(configured: bool, body: Body, insert: Record -> DbCall): (r: TasksResponse)
    ensures !configured ==> r == TasksError(503, NotConfigured)
    ensures configured && body.Unparsable? ==> r == TasksError(500, body.message)
    ensures configured && body == Parsed(JNull) ==> r == DestructureFailed
    ensures configured && body.Parsed? && body.value != JNull ==>
      (!ValidTitle(Prop(Some(body.value), "title")) ==> r == TasksError(400, "Title is required"))
      && (ValidTitle(Prop(Some(body.value), "title")) ==> r == WriteResponse(insert(NewTaskRow(body.value).value)))
  {
    if !configured then TasksError(503, NotConfigured)
    else if body.Unparsable? || body.value == JNull then BodyFailure(body)
    else match NewTaskRow(body.value)
      case Err(e) => TasksError(400, e)
      case Ok(row) => WriteResponse(insert(row))
  }

  /** Nothing is written for an invalid title: whatever the insert would do, the answer is the same 400. */
  lemma InvalidTitleWritesNothing(body: JsValue, insert1: Record -> DbCall, insert2: Record -> DbCall)
    requires body != JNull && !ValidTitle(Prop(Some(body), "title"))
    ensures PostTask(true, Parsed(body), insert1) == PostTask(true, Parsed(body), insert2) == TasksError(400, "Title is required")
  {
  }

  // ---------------------------------------------------------------------
  // PATCH
  // ---------------------------------------------------------------------

  const UpdatableKeys: set<string> := {"title", "notes", "status"}

  /** The fields of an object body that a patch may change, with their values. */
  function Restrict(fields: Record, keys: set<string>): (r: Record)
    ensures r.Keys == fields.Keys * keys
    ensures forall k :: k in r ==> r[k] == fields[k]
  {
    map k | k in fields && k in keys :: fields[k]
  }

  /**
   * The `updates` object: each of `title`, `notes` and `status` that is not
   * `undefined` (a `null` is kept) is copied from the body, and nothing else.
   */
  method BuildUpdates(fields: Record) returns (updates: Record)
    ensures updates == Restrict(fields, UpdatableKeys)
  {
    updates := map[];
    var title := Get(fields, "title");
    if title.Some? {
      updates := updates["title" := title.value];
    }
    var notes := Get(fields, "notes");
    if notes.Some? {
      updates := updates["notes" := notes.value];
    }
    var status := Get(fields, "status");
    if status.Some? {
      updates := updates["status" := status.value];
    }
  }

  /** The update is empty exactly when the body names none of the three fields. */
  lemma UpdatesEmpty(fields: Record)
    ensures Restrict(fields, UpdatableKeys) == map[] <==>
      "title" !in fields && "notes" !in fields && "status" !in fields
  {
    if "title" in fields {
      assert "title" in Restrict(fields, UpdatableKeys);
    } else if "notes" in fields {
      assert "notes" in Restrict(fields, UpdatableKeys);
    } else if "status" in fields {
      assert "status" in Restrict(fields, UpdatableKeys);
    }
  }

  /** `PATCH`: `update` is the update of the row with the given id. */
  method PatchTask(configured: bool, body: Body, update: (JsValue, Record) -> DbCall) returns (r: TasksResponse)
    ensures !configured ==> r == TasksError(503, NotConfigured)
    ensures configured && body.Unparsable? ==> r == TasksError(500, body.message)
    ensures configured && body == Parsed(JNull) ==> r == DestructureFailed
    ensures configured && body.Parsed? && body.value != JNull ==>
      var id := Prop(Some(body.value), "id");
      (!Truthy(id) ==> r == TasksError(400, "Task id is required"))
      && (Truthy(id) ==>
            var updates := Restrict(body.value.fields, UpdatableKeys);
            if updates == map[] then r == TasksError(400, "No updates provided")
            else r == WriteResponse(update(id.value, updates)))
  {
    if !configured {
      return TasksError(503, NotConfigured);
    }
    if body.Unparsable? || body.value == JNull {
      return BodyFailure(body);
    }
    var id := Prop(Some(body.value), "id");
    if !Truthy(id) {
      return TasksError(400, "Task id is required");
    }
    var updates := BuildUpdates(body.value.fields);
    if |updates| == 0 {
      return TasksError(400, "No updates provided");
    }
    r := WriteResponse(update(id.value, updates));
  }
}
