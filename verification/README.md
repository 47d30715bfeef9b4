# Bakery records backend — verified model of the record handlers

This project models the Express handlers of a small bakery backend
(`server.js`). The backend keeps "registro" documents: a date (`fecha`), a
free-form JSON payload (`data`), and a creation time. Inside `data`, the key
`amasadoras` holds an ordered array of kneading-machine batches. The
handlers create a record, count the records, delete all of them, delete one
by id, and remove one amasadora from a record by its position. When the
last amasadora of a record is removed, the whole record is deleted.

The Prisma client and its database are replaced by an in-memory map from id
to row, held in the class `Registros.RecordStore`. Each call the handlers
make into the client is a method of that class. The handlers are methods of
the same class. Their contracts state the HTTP status, the response body,
the new contents of the map, and the calls made to the store, which are
kept in a ghost call log. Every client call takes a `fault` argument. When
the argument holds an error, the call throws that error and changes
nothing. This stands for database failures the map cannot produce on its
own. One example is a row deleted by another request between the read and
the write of the removal handler.

Modules:

- `Wrappers`: `Option` (for `undefined`/`NaN`) and `Result` (for thrown errors).
- `JsonValue`: parsed JSON values and JavaScript truthiness.
- `JsParseInt`: JavaScript's `parseInt` without a radix argument. It skips
  leading white space, reads one sign, switches to base 16 on a `0x`/`0X`
  prefix, and reads the longest run of digits that follows. It also has a
  round-trip lemma against the decimal text of an integer.
- `PrismaErrors`: the error shape (`code`, `message`) and the not-found test
  the `catch` blocks apply.
- `Pagination`: the `take`/`skip` normalisation of the listing endpoint.
- `Amasadoras`: how the `amasadoras` array is read, spliced (an array
  method proved against a sequence function), and written back.
- `Registros`: rows, responses, the store, the handlers, and the lemmas
  about the removal handler.

Two points where the code is looser than a plain description of the
endpoints, and where the model follows the code:

- Parameters are read with `parseInt`, so `"7abc"` is read as 7, `"1.5"` as
  1, and `"0x10"` as 16. Only two kinds of text give 400: text with no
  leading number, and `0x`/`0X` with no hexadecimal digit after it (`"0x"`,
  `"0xg"`).
- This revision of `server.js` has no API-key check and no date-range
  filter, so the model has neither.

## Model

| member | source | states |
|---|---|---|
| `JsParseInt.ParseInt` | server.js:81-83 | after white space and one sign, parseInt is NaN exactly when no decimal digit follows, or when `0x`/`0X` is followed by no hexadecimal digit; a minus sign gives a result that is not positive, any other start one that is not negative |
| `JsParseInt.TrimStart` | server.js:65 | the white space parseInt skips: a suffix of the input that does not start with white space |
| `JsParseInt.DigitPrefix` | server.js:65 | the digits parseInt reads: the longest prefix of digits of the base (a prefix, all digits, followed by a non-digit or the end) |
| `JsParseInt.ParseIntDecimal` | server.js:81-82 | parseInt returns n for the decimal text of any integer n, after any leading white space and before any text that does not continue the number |
| `JsParseInt.NoDigitsIsNaN` | server.js:83 | text that, after white space and at most one sign, does not start with a digit parses to NaN |
| `JsParseInt.NatDecimalReadsBack` | server.js:65 | the decimal text of a natural number is all digits, starts with 0 only for zero, and reads back as the number |
| `PrismaErrors.MatchesShift` | server.js:71 | matches of the phrase in the text after its first character are the matches in the whole text one position later |
| `PrismaErrors.ContainsIgnoringCase` | server.js:71 | the position-by-position scan of `/No record was found/i.test` succeeds exactly when the phrase occurs at some position, ignoring letter case |
| `PrismaErrors.IsNotFound` | server.js:71 | an error counts as not-found exactly when its code is P2025 or its message contains "No record was found" in any letter case |
| `PrismaErrors.IsNotFoundExamples` | server.js:104 | a message in mixed case is recognised; an error with neither code nor message is not |
| `Registros.CatchResponse` | server.js:103-108 | a not-found error gives 404 "Registro no encontrado", and every other error gives 500 with the error's own message |
| `Pagination.ParseQuery` | server.js:31 | `parseInt` of the parameter; a missing parameter (`undefined`) is NaN |
| `Pagination.MaxZero` | server.js:31 | `Math.max(0, n)`: NaN stays NaN, and a number becomes one that is at least 0 and at least n, and equal to 0 or to n |
| `Pagination.OrUndefined` | server.js:31 | the `undefined` fallback: NaN and 0 become absent, and any other number is kept |
| `Pagination.Normalize` | server.js:31-32 | a normalised take/skip is absent or strictly positive, and is present exactly when the parameter parses to a positive integer, which is then its value |
| `Pagination.NormalizeDecimal` | server.js:31-32 | the text of n normalises to n when n > 0, and to no bound when n is 0 or negative |
| `Pagination.NormalizeNonNumeric` | server.js:32 | text that, after white space and at most one sign, does not start with a digit means no bound |
| `Pagination.ListArgs` | server.js:33-37 | the take and skip passed to the query are each absent or positive |
| `Amasadoras.AmasadorasOf` | server.js:88-89 | the amasadoras read from `data` are its array under that key, and empty when `data` is falsy, not an object, lacks the key, or holds a non-array there |
| `Amasadoras.Spliced` | server.js:93 | removing position i leaves one element fewer: earlier ones keep their places, later ones move down by one, and the multiset loses exactly the removed element |
| `Amasadoras.SplicedKeepsOrder` | server.js:93 | any two surviving elements come from two distinct other positions in the same order |
| `Amasadoras.SpliceAt` | server.js:93 | splicing in place leaves exactly the spliced sequence in the array's first length-1 slots |
| `Amasadoras.SplicedCopy` | server.js:89-93 | copying the array and splicing the copy yields exactly the spliced sequence |
| `Amasadoras.WithAmasadoras` | server.js:99 | `{...data, amasadoras}` keeps every other key and value of `data` and holds exactly the new array under `amasadoras` |
| `Amasadoras.WithAmasadorasRestores` | server.js:99 | writing back the array that was read gives back the same `data` |
| `Registros.FechaOf` | server.js:14-17 | the stored `fecha` is either the body's own truthy `fecha` or the empty string |
| `Registros.RemovalDone` | server.js:86-108 | the outcome of a removal with parsed parameters never adds a record, never changes a record other than `id`, and changes nothing when the answer is not 200 |
| `Registros.RemovalUpdateKeepsOtherFields` | server.js:98-100 | when amasadoras remain, the record keeps its id, `fecha`, creation time, and every other key of `data` with its value, and holds exactly the spliced sequence under `amasadoras` |
| `Registros.RemovalUpdatesScenario` | server.js:93-101 | removing index 1 of ["A","B","C"] in record 7 gives 200 {updatedId 7, 2 left}, leaves ["A","C"], and makes one read and one update |
| `Registros.RemovalDeletesScenario` | server.js:94-97 | removing the only amasadora of record 9 deletes the record and answers {deletedRegistro 9, 0 left} |
| `Registros.RemovalOutOfRangeScenario` | server.js:90-92 | index 5 of a one-element array gives 404 "Amasadora no encontrada en el registro" and no change |
| `Registros.RemovalLeavesNoEmptyRecord` | server.js:93-101 | a successful removal answers 200; no other record changes; the record either keeps the spliced, non-empty sequence or is deleted, and it is deleted exactly when it had one amasadora |
| `Registros.RemovalRejectsWithoutWrite` | server.js:86-92 | a missing record or an out-of-range index gives 404 after one read and no write |
| `Registros.RecordStore.Create` | server.js:15-20 | a new row gets a fresh id and the given `fecha`, `data` and time; a non-string `fecha` or a fault leaves the store unchanged |
| `Registros.RecordStore.CountRows` | server.js:47 | returns the number of rows |
| `Registros.RecordStore.DeleteMany` | server.js:57 | empties the store and returns how many rows it held |
| `Registros.RecordStore.FindUnique` | server.js:86 | returns the row with the id, or null |
| `Registros.RecordStore.Delete` | server.js:67 | removes exactly that row and returns it, or fails with P2025 and changes nothing |
| `Registros.RecordStore.UpdateData` | server.js:100 | replaces the row's `data` only, or fails with P2025 and changes nothing |
| `Registros.RecordStore.PostRegistro` | server.js:12-25 | 201 with the stored row (whole body as `data`, fecha from FechaOf); 400 with the error message, and no change, when the body is null or the store refuses it |
| `Registros.RecordStore.GetCount` | server.js:45-52 | 200 with the number of rows, or 500 |
| `Registros.RecordStore.DeleteAll` | server.js:55-60 | 200 with the former number of rows and an empty store, or 500 and no change |
| `Registros.RecordStore.DeleteRegistro` | server.js:63-76 | a non-numeric id gives 400 with no store call; otherwise exactly that row is deleted and its id returned, or nothing changes and the answer is 404 (missing) or 500 |
| `Registros.RecordStore.DeleteAmasadora` | server.js:79-85 | a non-numeric id or index gives 400 "Parámetros inválidos" with no store call; otherwise RemovalDone holds of the parsed values |
| `Registros.RecordStore.RemoveAmasadora` | server.js:86-92 | one read; a missing record or an out-of-range index (negative, past the end, or any index without an amasadoras array) gives 404 and no write |
| `Registros.RecordStore.WriteBack` | server.js:93-101 | exactly one write: delete the record when its last amasadora goes, else update `data` with only `amasadoras` spliced; a failed write is answered by CatchResponse with no change |
| `Registros.RecordStore.DeleteEmptied` | server.js:94-97 | one delete call; 200 {deletedRegistro id, 0 left} and the record gone; 404 and no change when the record has vanished; or the caught error and no change |
| `Registros.RecordStore.UpdateRemaining` | server.js:98-101 | one update call; 200 {updatedId id, number left} and only that record's `data` replaced; 404 and no change when the record has vanished; or the caught error and no change |

## Left out

- Express, CORS, the JSON body parser, the port and `listen` (server.js:1-8, 111-114). They are framework and network plumbing. Path and query parameters are taken as already-decoded text.
- The Prisma client and the database. An in-memory map replaces them. Database failures are passed in as `fault` arguments.
- The listing query (server.js:33-38). The model covers only the `take`/`skip` arguments the handler passes. The ordering, skipping and limiting done by the query engine are not modelled.
- The read-then-write race in the removal handler (server.js:86-100). It is not modelled as concurrency. A write that finds its row gone is covered by `writeFault` holding a P2025 error.
- `createdAt` generation: the creation time is a parameter `now`.
- The wording of the client's own error messages. `MissingRecord` and `FechaNotString` stand for them, and only the P2025 code of the first is relied on.
- JsParseInt.ParseInt: returns the exact integer. JavaScript rounds digit runs beyond 2^53 to the nearest double, gives Infinity for very long runs, and gives -0 for "-0"; these are not modelled. A query parameter repeated into an array is not modelled either.
- Registros.RecordStore.DeleteRegistro, Registros.RecordStore.DeleteAmasadora, Registros.RecordStore.RemoveAmasadora: ids outside the width of the id column are looked up like any other id (the delete at server.js:67, the read at server.js:86). The schema file is not part of this model. If the column is a 32-bit Int, the client would reject such an id with a validation error (500) rather than a not-found (404).
- Registros.RecordStore.Create: assumes `fecha` is a string column. A truthy non-string `fecha` is then rejected by the client (400). The schema is not part of this model.
- JSON numbers are exact reals, and object key order is not kept. `{...data, amasadoras}` keeps the key's position in JavaScript, but a map has no order.
- PrismaErrors.IsNotFound: assumes the thrown error is an object whose `message` is a string or undefined. A thrown `null` or a non-string message is not modelled.
- index.js: a one-off demo script that creates and lists a user. It is pure I/O.
