# ComfySQL in Dafny

ComfySQL is a small PHP convenience class over mysqli. It takes a query template
with positional `?` placeholders, substitutes quoted and escaped arguments into it,
runs the query, and returns the result in one of four shapes: a single value, the
first row, all rows, or each row passed to a callback that can stop the loop. Every
database error is thrown as a `ComfySQL_Exception`. That exception carries the
driver's error number and text and a context string.

This project models the logic of the class that does not depend on the driver:

- `encoding.dfy` (module `Encoding`) holds placeholder substitution as pure functions.
  `Scan` is the left-to-right walk over the template, with a counter that advances
  once per `?`. `Encoded` is `encode` itself, where a `null` argument list leaves the
  template unchanged. Beside them are an independent description of the output
  (`Segments`, `Substitutions`, `Interleave`) and lemmas connecting the two.
- `rows.dfy` (module `Rows`) holds the rows of a stored result and the `ResultSet` class.
  That class has a cursor that `fetch_row`/`fetch_assoc` advance, and a `free` flag.
  The module also has `Delivered`, the rows the callback of `dbgetcb` sees.
- `errors.dfy` (module `Errors`) holds the exception, its message
  `<errno==errstr> [[context]]`, and an inverse parser. The parser cuts the error
  text at the first `> [[`. It shows that the message determines its three parts
  whenever the error text does not contain `> [[`. Without such a condition the
  format is ambiguous: error text `a> [[b` with context `c` and error text `a`
  with context `b> [[c` give the same message (lemma `MessageAmbiguous`).
- `comfysql.dfy` (module `ComfySQL`) holds the `Session` class. It has the imperative
  `Encode` loop and the readers `DbGetSingle`, `DbGetRow`, `DbGetAll`, `DbGetCb` and
  `DbDo`. Each reader is proved against the functions above.

The driver is a parameter of the model. The session's `esc: string -> string` stands
for `real_escape_string`. What `$this->h->query(...)` returned is passed to each reader
as a `QueryOutcome`: `Failed(errno, error)` for `false`, `Done` for the `true` of a
statement without a result set, or `Stored(data)`, where `data` is a freshly stored
`ResultSet`. `dbdo` succeeds on `Done` and on `Stored`. A reader given `Done` calls
`fetch_row` or `fetch_assoc` on a boolean, which PHP rejects with an `Error`; the
readers return `FetchOnBool` for that case. The ghost field `sent` records the resolved SQL strings
handed to the driver.

Behaviours of `encode` and `dbdo` worth noting:

- Only a `null` argument list leaves the template unchanged. An empty argument list
  still substitutes every `?`.
- A `?` with no matching argument reads PHP `null`. The model defines this case as
  `"` + esc("") + `"` (lemma `MissingArgument`). It is not an error.
- `dbdo` ignores `$returnaffectedrows` and returns nothing.
- Column values are strings or SQL NULL, which is mysqli's default.

## Model

| member | source | states |
|---|---|---|
| Encoding.ArgAt | ComfySQL.php:160 | placeholder p reads argument p; past the end of the list it reads PHP null, whose string conversion is empty |
| Encoding.Quote | ComfySQL.php:164-167 | one literal: a double quote, the escaped value, a double quote |
| Encoding.Join | ComfySQL.php:162-165 | `implode`: the parts with the separator between neighbours, the empty string for no parts |
| Encoding.Substitution | ComfySQL.php:159-167 | a scalar becomes its quoted literal; an array becomes the quoted literals of its elements joined by commas |
| Encoding.Scan | ComfySQL.php:155-170 | the `preg_replace_callback` walk: each `?` is replaced by the rule applied to the next argument and the counter advances; other characters are copied; replacement text is not scanned |
| Encoding.Encoded | ComfySQL.php:149-171 | `encode`: a null argument list returns the template; otherwise the walk starts with the counter at 0 |
| Encoding.Substitutions | ComfySQL.php:159-160 | the k-th substitution, counting from a counter value p, is the rule applied to argument p + k |
| Encoding.Segments | ComfySQL.php:157-170 | the template splits into exactly one more segment than it has placeholders, and no segment contains `?` |
| Encoding.SegmentsJoin | ComfySQL.php:157-170 | joining the segments back with `?` gives the template, so no text outside the placeholders is lost or changed |
| Encoding.ScanIsInterleave | ComfySQL.php:155-170 | the scan's output is the segments interleaved with the substitutions of arguments p, p+1, …; replacement text is never rescanned |
| Encoding.EncodedIsInterleave | ComfySQL.php:149-171 | for a non-null argument list, `encode` outputs segment 0, substitution of args[0], segment 1, … , last segment |
| Encoding.ExtraArgsIgnored | ComfySQL.php:155-160 | the counter advances once per `?`: with at least as many arguments as placeholders, appending more arguments does not change the output |
| Encoding.ScanLiteral | ComfySQL.php:157-170 | text without a `?` is copied unchanged and consumes no argument |
| Encoding.ScanAppend | ComfySQL.php:155-170 | scanning x + y is scanning x, then scanning y with the counter advanced by the placeholders of x |
| Encoding.OnePlaceholder | ComfySQL.php:157-167 | a single `?` between literal texts is replaced by the substitution of argument p, with the texts copied around it |
| Encoding.TwoPlaceholders | ComfySQL.php:155-170 | two placeholders take the first and the second argument, whatever the first substitution contains, including a `?` |
| Encoding.MissingArgument | ComfySQL.php:160 | a placeholder beyond the argument list reads PHP null and becomes `"` + esc("") + `"` |
| Encoding.QuoteAll | ComfySQL.php:164 | each array element is mapped, in order, to `"` + esc(e) + `"` |
| Encoding.SingletonListIsScalar | ComfySQL.php:161-167 | a one-element array substitutes exactly as its element would as a scalar |
| Encoding.EmptyListIsEmpty | ComfySQL.php:161-165 | an empty array substitutes the empty string |
| Encoding.JoinAppend | ComfySQL.php:162-165 | implode of xs + ys is implode of xs, the separator, and implode of ys |
| Encoding.ListSubstitutionAppend | ComfySQL.php:161-165 | the substitution of an array xs + ys is that of xs, a comma, and that of ys, in element order |
| Encoding.ListOfThree | ComfySQL.php:161-165 | an array [a, b, c] becomes `"esc(a)","esc(b)","esc(c)"` |
| Encoding.ScalarThenListOfThree | ComfySQL.php:123-124 | the `set Active=? where ID in (?)` use: a scalar then a three-element array give the scalar's literal, then the three quoted literals separated by commas, between the copied texts |
| Encoding.InListOfThree | ComfySQL.php:155-167 | the `id in (?)` use: one placeholder with a three-element array gives the three quoted literals, comma-separated, between the copied texts |
| Rows.Values | ComfySQL.php:66 | `fetch_row` gives the row's values, one per column, in column order |
| Rows.Assoc | ComfySQL.php:81 | `fetch_assoc` of one row: column name to value, a later column replacing an earlier one of the same name |
| Rows.AssocKeys | ComfySQL.php:81 | `fetch_assoc` has a key for exactly the column names of the row |
| Rows.AssocLast | ComfySQL.php:81 | under a column name, `fetch_assoc` holds the value of the last column with that name |
| Rows.AssocNonEmpty | ComfySQL.php:95 | every row has a column, so `fetch_assoc` never gives the empty array; the `while ($row = ...)` loops stop only at the end of the rows |
| Rows.AssocRows | ComfySQL.php:94-97 | all rows through `fetch_assoc`: same length, the i-th entry is row i |
| Rows.AssocRowsSnoc | ComfySQL.php:95-96 | reading one more row extends the rows read so far by exactly that row |
| Rows.ResultSet.constructor | ComfySQL.php:61 | a stored result holds its rows with the cursor at the first row, not freed |
| Rows.ResultSet.FetchRow | ComfySQL.php:66 | returns the next row's values and advances the cursor, or null at the end without moving it |
| Rows.ResultSet.FetchAssoc | ComfySQL.php:95 | returns the next row by column name and advances the cursor, or null at the end without moving it |
| Rows.ResultSet.Free | ComfySQL.php:98 | the result is freed; the cursor stays within the rows |
| Rows.Stops | ComfySQL.php:115 | the loop breaks only on a callback result identical to `false` |
| Rows.StopAt | ComfySQL.php:114-118 | from row i on, the number of rows the callback has been called with when the loop ends: one past the first call returning `false`, or all rows |
| Rows.Delivered | ComfySQL.php:114-118 | the rows the callback is called with form a prefix of the rows, in order |
| Rows.StopAtSpec | ComfySQL.php:114-118 | from row i on, no call before the last one returned `false`, and the loop ends before the last row only on a `false` |
| Rows.DeliveredPrefix | ComfySQL.php:114-118 | the callback sees a prefix of the rows in order, each call given the rows before it; no call before the last returned `false`; it misses rows only if the last call returned `false` |
| Rows.DeliveredAll | ComfySQL.php:114-118 | if no call returns exactly `false` (null, 0, "" or true do not stop the loop), the callback sees every row |
| Rows.DeliveredStopsAtFirstFalse | ComfySQL.php:114-118 | if the call on row i is the first to return `false`, the callback sees rows 0..i and no more |
| Errors.IntToString | ComfySQL.php:183 | PHP's decimal text of an integer errno: a minus sign for a negative number, then its digits without leading zeros |
| Errors.Message | ComfySQL.php:183 | the message: `<`, errno, `==`, errstr, `> [[`, context, `]]` |
| Errors.NatToStringRoundTrip | ComfySQL.php:183 | the decimal digits of a non-negative errno read back as that number |
| Errors.IntToStringRoundTrip | ComfySQL.php:183 | PHP's decimal text of any integer errno reads back as that integer |
| Errors.MessageRoundTrip | ComfySQL.php:183 | the message `<errno==errstr> [[context]]` parses back to errno, errstr and context when errstr does not contain `> [[` |
| Errors.MessageAmbiguous | ComfySQL.php:183 | an errstr containing `> [[` makes the message ambiguous: two different (errstr, context) pairs give the same message |
| Errors.NewException | ComfySQL.php:180-193 | `errno()` and `errstr()` return the constructor's arguments unchanged, and the message determines errno, errstr and context when errstr does not contain `> [[` |
| ComfySQL.FirstColumn | ComfySQL.php:68 | the definition: null when `fetch_row` gave null, otherwise the value at index 0 of the (non-empty) row it gave |
| ComfySQL.SingleValue | ComfySQL.php:66-68 | `dbgetsingle` gives null with no rows, otherwise column 0 of the first row |
| ComfySQL.FirstRow | ComfySQL.php:81-83 | `dbgetrow` gives null exactly when there are no rows, otherwise the first row by column name |
| ComfySQL.FirstRowIsFirstOfAll | ComfySQL.php:81-99 | `dbgetrow`'s result is the first entry of `dbgetall`'s result, and null exactly when that result is empty |
| ComfySQL.SingleValueInFirstRow | ComfySQL.php:66-83 | `dbgetsingle`'s value is `dbgetrow`'s value under the first column's name, when no later column shares that name |
| ComfySQL.Session.constructor | ComfySQL.php:40-45 | a session over a successfully opened connection, with its escape function and nothing sent yet |
| ComfySQL.Session.Encode | ComfySQL.php:149-171 | the loop returns the template unchanged for null args; otherwise segments interleaved with the substitutions of args 0, 1, … in order |
| ComfySQL.Session.Query | ComfySQL.php:61-64 | sends the encoded query; a `false` result gives the exception with the driver's errno and error and the unresolved template as context; `true` or a result set gives none |
| ComfySQL.Session.DbGetSingle | ComfySQL.php:60-69 | sends the encoded query; on failure the exception with the template as context; on `true` the fetch-on-boolean error; otherwise SingleValue of the rows, with the result freed |
| ComfySQL.Session.DbGetRow | ComfySQL.php:75-84 | sends the encoded query; on failure the exception; on `true` the fetch-on-boolean error; otherwise FirstRow of the rows, with the result freed |
| ComfySQL.Session.DbGetAll | ComfySQL.php:88-100 | sends the encoded query; on failure the exception; on `true` the fetch-on-boolean error; otherwise every row by column name in driver order (empty for no rows), with the result freed |
| ComfySQL.Session.DbGetCb | ComfySQL.php:108-121 | sends the encoded query; on failure the exception; on `true` the fetch-on-boolean error; otherwise nothing is returned, the result is freed, the callback is called on exactly Delivered(rows), each call given the rows before it, and no row past the last one delivered is fetched |
| ComfySQL.Session.DbDo | ComfySQL.php:125-129 | sends the encoded query; on failure the exception; on `true` or a result set nothing is returned |

## Left out

- The mysqli connection, its connect-error check (ComfySQL.php:40-45) and the destructor's kill/close sequence (:47-55) are driver I/O. The constructor models only a connection that opened.
- Query execution is not modelled. What the driver returns is an input (`QueryOutcome`), and the encoded SQL is recorded in the ghost field `sent`.
- `real_escape_string` is foreign and depends on the charset. It is the uninterpreted function `esc`.
- `get_affected_rows`, `get_insert_id` (:132-139) and `context()` (:195-197) are left out. The first two pass through driver state. `context()` reads a field that is never assigned.
- PHP's string conversion of scalars (ints, floats, booleans, null) is not modelled. An argument is given by its converted string.
- Arrays nested inside an array argument are not modelled. The escape call would reject them with a TypeError.
- Associative arrays are modelled as maps, so the key order of a fetched row is not kept.
- The callback is a function of the rows it was called with before and the current row, which covers any state it keeps. Its side effects, and any exception it throws, are represented only by the sequence of rows it is called with.
- Failures of `fetch_row`/`fetch_assoc`/`free` and PHP's warnings for a missing argument are not modelled.
