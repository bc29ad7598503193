# Post entity of a minimal PHP blog, modelled in Dafny

The blog keeps its articles in one table, `post(id, title, content,
published_at)`. The `Post` class in `classes/Post.php` is the only real logic.
Its fields are `id`, `title`, `content`, `published_at` and the transient
`errors` list. It validates those fields and writes them to the table.

The project is made of three modules:

- `Wrappers` (`wrappers.dfy`): an `Option` type. It stands for the nullable
  `published_at`, for the `public int $id` that has not been initialised yet,
  and for the `false` that `date_create_from_format` returns (in
  `ParseFromFormat`). "No row found" in `GetPostById` is a null `Post?`.
- `DateTimeFormat` (`date_time_format.dfy`): the date check that `validatePost`
  performs with `date_create_from_format('Y-m-d H:i:s', …)` and
  `date_get_last_errors()`.
  - `ParseFromFormat` returns None where the string lacks the fixed-width
    layout `dddd-dd-dd dd:dd:dd`; this stands for PHP returning false, though
    PHP is more lenient (see "Left out"). Otherwise it returns the fields it
    read and a warning count: one warning for an impossible time and one for
    an impossible date.
  - `ValidDateTime` holds when the string parses and the parse raised no
    warning.
  - The check is proved to accept exactly the canonical spellings of real
    dates and times, with leap years handled. This is proved in both
    directions through `Format`.
- `Posts` (`posts.dfy`): the validator and the persistence methods.
  - The database connection `$conn` becomes `Store`, a class holding the table
    as a `map<int, Row>` and the auto-increment counter `nextId`. Its methods
    `Insert`, `UpdateWhere` and `DeleteWhere` stand for the three SQL
    statements.
  - `Post` is a class with the PHP properties as fields. `Validate`, `Create`,
    `Update` and `Delete` update those fields and the table in place.
  - `ValidationErrors` is the function that specifies what one validation run
    leaves in `errors`.

PHP behaviours the model keeps:

- `public int $id` has no default, so it is `Option<int>`: None until `create`
  or a fetch sets it. `update` and `delete` bind `$this->id`; when it was
  never set, PHP raises an Error. That result is `Outcome.Threw`.
- When `create` passes validation but `execute()` fails, the method falls off
  its end. Under the declared `bool` return type that is a TypeError, which is
  also `Threw`.
- The boolean that the driver's `execute()` reports is the parameter
  `executes`. `update` and `delete` return that value, and only a successful
  execute changes the table.
- `published_at` is `?string`, modelled as `Option<string>`.
  - `$published_at != ''` is false for null, so a null date is not checked,
    just like an empty one.
  - `=== ''` matches only the empty string. Null is bound as NULL as well, so
    both are stored as NULL (`StoredPublishedAt`).
- `Create` and `Update` write a row only after validation passes, and the row
  they write is proved to satisfy `RowValid`. `WritesKeepRowsValid` proves
  that writing a valid row or deleting a key keeps `AllRowsValid`, so a table
  that starts empty and is changed only by these methods never holds a row
  with an empty title or content, or with a malformed date.

## Model

| member | source | states |
|---|---|---|
| `DateTimeFormat.ParseFromFormat` | classes/Post.php:162-172 | The parse succeeds exactly when the string has the layout `dddd-dd-dd dd:dd:dd`. When it succeeds, the fields it returns are the numbers written in the string's six digit groups (`FieldsOf`) and its warning count is their `WarningCount`; it reports no warning exactly when the fields form a well-formed date and time (month 1-12, a day that exists in that month and year, hour 0-23, minute and second 0-59). |
| `DateTimeFormat.WarningCount` | classes/Post.php:167-169 | At most two warnings. None exactly when both the date and the time are valid. |
| `DateTimeFormat.DaysInMonth` | classes/Post.php:162 | Every month has 28 to 31 days: 28 exactly in February of a common year, 29 exactly in February of a Gregorian leap year, 30 exactly in months 4, 6, 9 and 11, and 31 exactly in months 1, 3, 5, 7, 8, 10 and 12. |
| `DateTimeFormat.ValidDateTime` | classes/Post.php:162-171 | A string is accepted exactly when it has the layout and its fields form a well-formed date and time; an accepted string is 19 characters long. |
| `DateTimeFormat.FormatThenParse` | classes/Post.php:162 | Every well-formed date and time, written in the layout, parses back to itself with zero warnings. |
| `DateTimeFormat.ParseThenFormat` | classes/Post.php:162-172 | A string that passes the check is well-formed, and it is exactly the canonical spelling of what it parses to (no other spelling is accepted). |
| `DateTimeFormat.ValidDateTimeIff` | classes/Post.php:161-172 | A string passes the date check if and only if it is the layout spelling of some well-formed date and time. |
| `DateTimeFormat.EmptyIsNotValid` | classes/Post.php:161 | The empty string never passes the strict check. This is why the validator must skip it rather than test it. |
| `DateTimeFormat.LeapDayExample` | classes/Post.php:162-172 | `2024-02-29 23:59:59` passes (leap year). |
| `DateTimeFormat.CommonYearExample` | classes/Post.php:167-171 | `2023-02-29 12:00:00` parses (no false result) with a positive warning count, so it fails. |
| `DateTimeFormat.MonthThirteenExample` | classes/Post.php:167-171 | `2024-13-01 00:00:00` parses with a positive warning count, so it fails. |
| `DateTimeFormat.DayThirtyTwoExample` | classes/Post.php:167-171 | `2024-01-32 00:00:00` parses with a positive warning count, so it fails. |
| `DateTimeFormat.AllOutOfRangeExample` | classes/Post.php:167-171 | `2024-13-40 99:99:99` fails. |
| `DateTimeFormat.ShortExample` | classes/Post.php:164-165 | `2024-01-05 10:00`, without the seconds field, gives no parse at all (the false branch), so it fails. |
| `Posts.DateRejected` | classes/Post.php:161-172 | The date branch adds its message exactly when `published_at` is non-null, non-empty and not a valid date-time; a null or empty value is never rejected. |
| `Posts.ValidationErrors` | classes/Post.php:153-174 | `Title is required` is present exactly when the title is empty. `Content is required` is present exactly when the content is empty. `Invalid date and time` is present exactly when `published_at` is non-null, non-empty and not a valid date-time. No other message appears. Messages come in the order title, content, date, with no repeats, so there are at most 3. The list is empty exactly when all three checks pass. |
| `Posts.Post.Validate` | classes/Post.php:151-175 | Afterwards `errors` is exactly `ValidationErrors` of the current fields. Earlier contents are discarded. The result is true exactly when `errors` is empty. Only `errors` changes. |
| `Posts.StoredPublishedAt` | classes/Post.php:215-219 | NULL is stored exactly when `published_at` is null or the empty string. Any other value is stored as given, and an empty string is never stored. |
| `Posts.WritesKeepRowsValid` | classes/Post.php:203-229 | Writing a valid row under any key, or deleting any key, keeps every row of the table valid. |
| `Posts.ValidatedRowIsValid` | classes/Post.php:205-219 | Fields that pass validation make a row that `RowValid` accepts once the date is translated for storage. |
| `Posts.Store.Insert` | classes/Post.php:207-208 | The new row goes under the counter's key, which was not in use and is at least 1, and the counter advances by one. Existing rows are kept, and the table grows by exactly one row. |
| `Posts.Store.UpdateWhere` | classes/Post.php:123-127 | Only the row with that key is overwritten, and nothing happens when no such row exists. The counter is unchanged. |
| `Posts.Store.DeleteWhere` | classes/Post.php:186-187 | Exactly the row with that key is removed. The table shrinks by one when that row existed and is unchanged otherwise. |
| `Posts.Post.constructor` | classes/Post.php:14-38 | A new Post has no id, an empty title and content, an empty `published_at` and no errors. |
| `Posts.Post.AsRow` | classes/Post.php:212-219 | The row bound for writing carries the post's title and content; its `published_at` is NULL exactly when the post's is null or empty, and otherwise the post's value. |
| `Posts.Post.Create` | classes/Post.php:203-229 | On validation failure: returns false, the table and `id` are unchanged, and `errors` holds the messages. On success with a working execute: exactly one row is added under a fresh store-assigned key, `id` becomes that key, and the result is true. On success with a failed execute: raises, and the table and `id` are unchanged. Whenever validation passes, the row written satisfies `RowValid`. |
| `Posts.Post.Update` | classes/Post.php:120-145 | On validation failure: returns false and leaves the table unchanged. With `id` never set: raises. Otherwise: returns what execute reports. On success only the row keyed by `id` is overwritten, and a missing row leaves the table as it was. `id` never changes. Whenever validation passes, the row written satisfies `RowValid`. |
| `Posts.Post.Delete` | classes/Post.php:184-194 | With `id` never set: raises. Otherwise: returns what execute reports, and on success removes only the row keyed by `id`, leaving every other row unchanged. The count drops by one exactly when that row existed, and a missing id leaves the table unchanged. |
| `Posts.Post.GetPostById` | classes/Post.php:97-111 | Returns null (PHP's false) exactly when no row has the key. Otherwise returns a fresh Post carrying that key and the row's title, content and `published_at`, with no errors. |
| `Posts.Post.GetTotal` | classes/Post.php:238-241 | The number of distinct keys in the table, which is zero exactly when the table is empty. |
| `Posts.SamplePostIsValid` | classes/Post.php:153-174 | Title "A", content "B" and an empty `published_at` pass validation. |
| `Posts.CreateThreeDeleteOne` | classes/Post.php:184-241 | Three valid posts are created and one is deleted; `getTotal` then gives 2. |
| `Posts.EmptyDateReadsBackNull` | classes/Post.php:203-219 | A post created with an empty `published_at` reads back by its new id with NULL there, not with an empty string. |

## Left out

- `ParseFromFormat` and `ValidDateTime` approximate `date_create_from_format('Y-m-d H:i:s', …)`. PHP's parser also accepts shorter fields, such as a single-digit month, day or hour (`2024-1-05 10:00:00`), and years of fewer than four digits; and a space in the format matches zero or more whitespace characters, so `2024-01-0510:00:00` parses too. The model accepts only the fixed-width `YYYY-MM-DD HH:MM:SS` layout with exactly one space, and returns None for every other string. The warning texts themselves are not modelled, only their count.
- Since PHP 8.2, `date_get_last_errors()` returns false when there were no warnings. Indexing that false yields null, and `null > 0` is false, so the outcome is the same as a warning count of zero. That path is not modelled separately.
- `getAll` and `getPage` are not modelled. Their only logic is `ORDER BY published_at DESC LIMIT/OFFSET`, whose ordering, tie-breaking and placement of NULLs belong to the SQL engine. The query-failure path of `getAll` (print, then return nothing) is omitted too.
- `GetPostById` always selects every column. Interpolating a column subset into the SQL text is not modelled, and neither is the case where the statement fails to execute (an implicit null return).
- PDO mechanics are left out: prepare, bind, fetch modes, and coercing the `lastInsertId()` string to `int`. The store-assigned key is an `int` from the start. Whether `execute()` succeeds is the parameter `executes`.
- Posts.Post.Update and Posts.Post.Delete assume PDO's silent or warning error mode, in which a failing `execute()` returns false, so they return `Returned(false)`. Under `PDO::ERRMODE_EXCEPTION` (the default since PHP 8.0) the failing execute would raise a `PDOException` instead; the connection's configuration is not part of this model. `Create` raises (`Threw`) on a failing execute under either mode.
- The auto-increment counter does not skip a key when an insert fails, and the table starts empty. Rows written by other programs are not modelled.
- `includes/auth.php` (`isLoggedIn`, a read of the session global) and the page `public/post.php` are presentation and session glue, and are not modelled. `classes/Database.php` (the connection) is not part of this model.
- Concurrency between requests is not modelled. The table is used by one request at a time.
