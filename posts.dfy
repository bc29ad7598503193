/**
 * The `Post` entity of the blog and its persistence methods, over an abstract
 * in-memory table in place of the SQL `post` table.
 */
module Posts {
  import opened Wrappers
  import opened DateTimeFormat

  // ---------------------------------------------------------------------------
  // Validation messages

  const TitleRequired: string := "Title is required"
  const ContentRequired: string := "Content is required"
  const InvalidDateAndTime: string := "Invalid date and time"

  /** The position of a message in the order the validator checks the fields. */
  function MessageRank(msg: string): nat {
    if msg == TitleRequired then 0
    else if msg == ContentRequired then 1
    else 2
  }

  /**
   * The date branch of the validator. PHP's `$published_at != ''` is false
   * for null as well as for the empty string, so neither is checked; any other
   * value is rejected when the parse fails or when it reports a warning.
   */
  predicate DateRejected(publishedAt: Option<string>): (rejected: bool)
    ensures rejected <==> publishedAt.Some? && publishedAt.value != "" && !ValidDateTime(publishedAt.value)
    ensures publishedAt == None || publishedAt == Some("") ==> !rejected
  {
    publishedAt.Some? && publishedAt.value != ""
    && match ParseFromFormat(publishedAt.value)
       case None => true
       case Some(parsed) => parsed.warningCount > 0
  }

  /** The messages one run of the validator leaves in `errors`, in the order it adds them. */
  function ValidationErrors(title: string, content: string, publishedAt: Option<string>): (errs: seq<string>)
    ensures TitleRequired in errs <==> title == ""
    ensures ContentRequired in errs <==> content == ""
    ensures InvalidDateAndTime in errs <==>
              publishedAt.Some? && publishedAt.value != "" && !ValidDateTime(publishedAt.value)
    ensures forall e :: e in errs ==> e == TitleRequired || e == ContentRequired || e == InvalidDateAndTime
    ensures forall i, j :: 0 <= i < j < |errs| ==> MessageRank(errs[i]) < MessageRank(errs[j])
    ensures |errs| <= 3
    ensures errs == [] <==>
              title != "" && content != ""
              && (publishedAt.Some? && publishedAt.value != "" ==> ValidDateTime(publishedAt.value))
  {
    (if title == "" then [TitleRequired] else [])
    + (if content == "" then [ContentRequired] else [])
    + (if DateRejected(publishedAt) then [InvalidDateAndTime] else [])
  }

  // ---------------------------------------------------------------------------
  // The table

  /** A row of the `post` table; a NULL `published_at` is None. */
  datatype Row = Row(title: string, content: string, publishedAt: Option<string>)

  /** What is bound to `:published_at`: the empty string (and null) become NULL, anything else is stored as given. */
  function StoredPublishedAt(publishedAt: Option<string>): (stored: Option<string>)
    ensures stored.None? <==> publishedAt.None? || publishedAt == Some("")
    ensures stored.Some? ==> stored == publishedAt
    ensures stored != Some("")
  {
    if publishedAt == Some("") then None else publishedAt
  }

  /** A row that the validator would accept: title and content present, a publication date NULL or strictly valid. */
  predicate RowValid(row: Row) {
    row.title != "" && row.content != ""
    && (row.publishedAt.Some? ==> ValidDateTime(row.publishedAt.value))
  }

  predicate AllRowsValid(rows: map<int, Row>) {
    forall key :: key in rows ==> RowValid(rows[key])
  }

  /**
   * Writing a valid row under any key, or deleting any key, keeps every row
   * of the table valid; with the RowValid guarantee of `Create` and `Update`
   * this makes "every stored row passed validation" an invariant of a table
   * that starts empty.
   */
  lemma WritesKeepRowsValid(rows: map<int, Row>, key: int, row: Row)
    requires AllRowsValid(rows) && RowValid(row)
    ensures AllRowsValid(rows[key := row])
    ensures AllRowsValid(rows - {key})
  {
  }

  /** Fields that pass validation make a valid row once the publication date is translated for storage. */
  lemma ValidatedRowIsValid(title: string, content: string, publishedAt: Option<string>)
    requires ValidationErrors(title, content, publishedAt) == []
    ensures RowValid(Row(title, content, StoredPublishedAt(publishedAt)))
  {
  }

  /** The `post` table with its auto-increment counter; it stands for the connection `$conn`. */
  class Store {
    var rows: map<int, Row>
    var nextId: int

    /** Keys are positive and below the next key to be handed out. */
    ghost predicate Valid()
      reads this
    {
      1 <= nextId && forall key :: key in rows ==> 1 <= key < nextId
    }

    constructor ()
      ensures Valid() && rows == map[] && nextId == 1
    {
      rows := map[];
      nextId := 1;
    }

    /** `INSERT INTO post …`: a row under a fresh store-assigned key. */
    method Insert(row: Row) returns (key: int)
      requires Valid()
      modifies this
      ensures Valid()
      ensures key == old(nextId) && 1 <= key && key !in old(rows)
      ensures nextId == old(nextId) + 1
      ensures rows == old(rows)[key := row]
      ensures |rows| == |old(rows)| + 1
    {
      key := nextId;
      rows := rows[key := row];
      nextId := nextId + 1;
    }

    /** `UPDATE post SET … WHERE id = :id`: overwrites that row if there is one. */
    method UpdateWhere(key: int, row: Row)
      requires Valid()
      modifies this
      ensures Valid() && nextId == old(nextId)
      ensures rows == if key in old(rows) then old(rows)[key := row] else old(rows)
    {
      if key in rows {
        rows := rows[key := row];
      }
    }

    /** `DELETE FROM post WHERE id = :id`: removes that row if there is one. */
    method DeleteWhere(key: int)
      requires Valid()
      modifies this
      ensures Valid() && nextId == old(nextId)
      ensures rows == old(rows) - {key}
      ensures |rows| == if key in old(rows) then |old(rows)| - 1 else |old(rows)|
    {
      rows := rows - {key};
    }
  }

  // ---------------------------------------------------------------------------
  // The entity

  /** How a PHP call ends: it returns a bool, or it raises an Error to its caller. */
  datatype Outcome = Returned(value: bool) | Threw

  class Post {
    /** `public int $id` has no default: None until a create or a fetch sets it. */
    var id: Option<int>
    var title: string
    var content: string
    var publishedAt: Option<string>
    var errors: seq<string>

    /** `new Post()`: the property defaults. */
    constructor ()
      ensures id == None && title == "" && content == "" && publishedAt == Some("") && errors == []
    {
      id := None;
      title := "";
      content := "";
      publishedAt := Some("");
      errors := [];
    }

    /** The row the insert and update statements write. */
    function AsRow(): (row: Row)
      reads this
      ensures row.title == title && row.content == content
      ensures row.publishedAt.None? <==> publishedAt.None? || publishedAt == Some("")
      ensures row.publishedAt.Some? ==> row.publishedAt == publishedAt
    {
      Row(title, content, StoredPublishedAt(publishedAt))
    }

    /** `validatePost`: resets `errors`, appends a message per failed check and succeeds when none was added. */
    method Validate() returns (ok: bool)
      modifies this`errors
      ensures errors == ValidationErrors(title, content, publishedAt)
      ensures ok <==> errors == []
    {
      errors := [];
      if title == "" {
        errors := errors + [TitleRequired];
      }
      if content == "" {
        errors := errors + [ContentRequired];
      }
      if publishedAt.Some? && publishedAt.value != "" {
        var parsed := ParseFromFormat(publishedAt.value);
        if parsed.None? {
          errors := errors + [InvalidDateAndTime];
        } else if parsed.value.warningCount > 0 {
          errors := errors + [InvalidDateAndTime];
        }
      }
      ok := errors == [];
    }

    /**
     * `create`: validates, inserts and takes the store-assigned key as `id`.
     * `executes` is what the driver's `execute()` reports; when it fails the
     * method falls off its end, which PHP turns into a TypeError.
     */
    method Create(conn: Store, executes: bool) returns (result: Outcome)
      requires conn.Valid()
      modifies this`errors, this`id, conn
      ensures conn.Valid()
      ensures errors == ValidationErrors(title, content, publishedAt)
      ensures errors != [] ==> result == Returned(false) && id == old(id) && unchanged(conn)
      ensures errors == [] && !executes ==> result == Threw && id == old(id) && unchanged(conn)
      ensures errors == [] && executes ==>
                && result == Returned(true)
                && id == Some(old(conn.nextId))
                && id.value !in old(conn.rows)
                && conn.rows == old(conn.rows)[id.value := AsRow()]
                && |conn.rows| == |old(conn.rows)| + 1
      ensures errors == [] ==> RowValid(AsRow())
    {
      var ok := Validate();
      if !ok {
        return Returned(false);
      }
      ValidatedRowIsValid(title, content, publishedAt);
      if !executes {
        return Threw;
      }
      var key := conn.Insert(AsRow());
      id := Some(key);
      result := Returned(true);
    }

    /**
     * `update`: validates, then overwrites the row keyed by `id`. A missing
     * row is not an error; an `id` never set raises when it is bound.
     */
    method Update(conn: Store, executes: bool) returns (result: Outcome)
      requires conn.Valid()
      modifies this`errors, conn
      ensures conn.Valid()
      ensures errors == ValidationErrors(title, content, publishedAt)
      ensures errors != [] ==> result == Returned(false) && unchanged(conn)
      ensures errors == [] && id.None? ==> result == Threw && unchanged(conn)
      ensures errors == [] && id.Some? ==>
                && result == Returned(executes)
                && conn.nextId == old(conn.nextId)
                && conn.rows == if executes && id.value in old(conn.rows)
                                then old(conn.rows)[id.value := AsRow()]
                                else old(conn.rows)
      ensures errors == [] ==> RowValid(AsRow())
    {
      var ok := Validate();
      if !ok {
        return Returned(false);
      }
      ValidatedRowIsValid(title, content, publishedAt);
      if id.None? {
        return Threw;
      }
      if executes {
        conn.UpdateWhere(id.value, AsRow());
      }
      result := Returned(executes);
    }

    /** `delete`: removes the row keyed by `id`, whether or not it exists. */
    method Delete(conn: Store, executes: bool) returns (result: Outcome)
      requires conn.Valid()
      modifies conn
      ensures conn.Valid()
      ensures id.None? ==> result == Threw && unchanged(conn)
      ensures id.Some? ==>
                && result == Returned(executes)
                && conn.nextId == old(conn.nextId)
                && conn.rows == (if executes then old(conn.rows) - {id.value} else old(conn.rows))
                && |conn.rows| == (if executes && id.value in old(conn.rows) then |old(conn.rows)| - 1 else |old(conn.rows)|)
    {
      if id.None? {
        return Threw;
      }
      if executes {
        conn.DeleteWhere(id.value);
      }
      result := Returned(executes);
    }

    /** `getPostByID` with all columns: a fresh `Post` holding the row, or null (PHP's false) when there is none. */
    static method GetPostById(conn: Store, key: int) returns (post: Post?)
      ensures post == null <==> key !in conn.rows
      ensures post != null ==>
                && fresh(post)
                && post.id == Some(key)
                && post.title == conn.rows[key].title
                && post.content == conn.rows[key].content
                && post.publishedAt == conn.rows[key].publishedAt
                && post.errors == []
    {
      if key !in conn.rows {
        return null;
      }
      var row := conn.rows[key];
      post := new Post();
      post.id := Some(key);
      post.title := row.title;
      post.content := row.content;
      post.publishedAt := row.publishedAt;
    }

    /** `getTotal`: `SELECT COUNT(*) FROM post`, one per key present. */
    static function GetTotal(conn: Store): (total: nat)
      reads conn
      ensures total == |conn.rows.Keys|
      ensures total == 0 <==> conn.rows == map[]
    {
      |conn.rows|
    }
  }

  /** Title "A", content "B" and an empty publication date pass validation. */
  lemma SamplePostIsValid()
    ensures ValidationErrors("A", "B", Some("")) == []
  {
  }

  /** Three valid posts are created and the second is deleted: two rows remain. */
  method CreateThreeDeleteOne() returns (total: nat)
    ensures total == 2
  {
    SamplePostIsValid();
    var conn := new Store();
    var first := new Post();
    first.title, first.content := "A", "B";
    var r1 := first.Create(conn, true);
    assert first.errors == [] && |conn.rows| == 1;
    var second := new Post();
    second.title, second.content := "A", "B";
    var r2 := second.Create(conn, true);
    assert second.errors == [];
    var secondKey := second.id.value;
    assert |conn.rows| == 2;
    var third := new Post();
    third.title, third.content := "A", "B";
    var r3 := third.Create(conn, true);
    assert third.errors == [];
    assert |conn.rows| == 3 && secondKey in conn.rows;
    var r4 := second.Delete(conn, true);
    assert second.id == Some(secondKey);
    total := Post.GetTotal(conn);
  }

  /** A post created with an empty publication date reads back with NULL there, not an empty string. */
  method EmptyDateReadsBackNull() returns (readBack: Post?)
    ensures readBack != null && readBack.title == "A" && readBack.content == "B"
    ensures readBack != null && readBack.publishedAt == None
  {
    SamplePostIsValid();
    var conn := new Store();
    var post := new Post();
    post.title, post.content := "A", "B";
    var created := post.Create(conn, true);
    assert post.AsRow() == Row("A", "B", None);
    readBack := Post.GetPostById(conn, post.id.value);
  }
}
