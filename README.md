# Horse registry: a verified model of the slug function and the request handler

The program is a small Deno HTTP service over one SQLite table `horses`
(`myapp/main.ts`). This project models two parts of it.

- **The slug function `toKebabCase`** (`slug.dfy`, module `Slug`). It
  lowercases the input, replaces every maximal whitespace run with one `-`,
  then deletes everything outside `[a-z0-9-]`. It is modelled as three
  string functions applied in that order. The proved properties are:
  - the result is a slug with no whitespace;
  - each whitespace run becomes exactly one `-`;
  - the function can be computed piecewise at any seam that does not split
    a whitespace run;
  - applying it twice gives the same result as applying it once;
  - worked examples, such as `"Sea  Biscuit!"` giving `"sea-biscuit"`,
    `"Man o' War"` giving `"man-o-war"`, and `"a - b"` giving `"a---b"`.
- **The request handler passed to `serve`** (modules `Paths`, `Store` and
  `Router`).
  - `Paths` models `path.split("/")[2]` with JavaScript's split semantics,
    along with the `!id` test. It also models how an id text is matched
    against the integer key column.
  - `Store` holds the `Horse` record and the table. The table is a class
    `HorseTable` whose fields are the rows, the `AUTOINCREMENT` counter and
    the last inserted rowid. `Insert` appends exactly one row under a fresh
    id.
  - `Router` holds the ordered decision on path prefix, method and id, and
    the responses of each branch. `Handle` runs one request against a
    `HorseTable`. Its postcondition gives the response and the new table
    for every branch:
    - 404 "Not Found" outside `/horse…`;
    - on a GET without an id, the whole table, with status 200, or 404 when
      the table is empty;
    - on a GET with an id, the record, or 404 "Horse not found";
    - 201 with the stored record on a POST;
    - 405 for any other method;
    - 500 when the body is not JSON, `name` is not a string, `name` or
      `age` is missing, or the table has run out of ids.

    Only the POST branch changes the table.

The handler never checks that a name is non-empty: an empty or
all-punctuation name is stored with the permalink `horsetider.dev/`.

Two decisions shape the model:

- The request reaches the model as the pathname `new URL` gives, with its
  percent-escapes still in place, and an optional body. `None` stands for every way `await req.json()` or the destructuring
  of `{ name, age }` can end in the `catch` branch.
- JSON response bodies are represented by the value they encode, either the
  list of rows or one row.

## Model

| member | source | states |
|---|---|---|
| `Slug.LowerChar` | myapp/main.ts:26 | `A`-`Z` become the matching letter of `a`-`z`, every other character is unchanged, whitespace stays whitespace, and no uppercase ASCII letter is left |
| `Slug.Lower` | myapp/main.ts:26 | lowercasing keeps the length |
| `Slug.LowerAt` | myapp/main.ts:26 | lowercasing works character by character |
| `Slug.DropSpaces` | myapp/main.ts:27 | removing a leading whitespace run never lengthens the string |
| `Slug.DropSpacesSpec` | myapp/main.ts:27 | exactly the longest all-whitespace prefix is removed: the rest is a suffix that does not start with whitespace |
| `Slug.CollapseSpaces` | myapp/main.ts:27 | replacing the runs never lengthens the string |
| `Slug.CollapseHasNoSpace` | myapp/main.ts:27 | no whitespace is left after `replace(/\s+/g, '-')` |
| `Slug.KeepSlugChars` | myapp/main.ts:28 | the filter never lengthens the string |
| `Slug.KeepSlugCharsSpec` | myapp/main.ts:28 | after `replace(/[^a-z0-9-]/g, '')` only `[a-z0-9-]` is left; a character occurs in the result exactly when it occurs in the input and is in `[a-z0-9-]`; a string already of that form is unchanged |
| `Slug.KeepSlugCharsOne` | myapp/main.ts:28 | a single character is kept exactly when it is in `[a-z0-9-]` and deleted otherwise (with `KeepAppend`, this fixes the filter on every string) |
| `Slug.ToKebabCase` | myapp/main.ts:24-29 | the slug contains only lowercase ASCII letters, digits and `-`, has no whitespace and is no longer than the input |
| `Slug.LowerAppend` | myapp/main.ts:26 | lowercasing distributes over concatenation |
| `Slug.KeepAppend` | myapp/main.ts:28 | the filter distributes over concatenation |
| `Slug.DropSpacesAppend` | myapp/main.ts:27 | removing the leading run of `a + b` removes all of `a` and the leading run of `b` when `a` is all whitespace, and otherwise leaves `b` untouched |
| `Slug.DropSpacesOfSpaces` | myapp/main.ts:27 | an all-whitespace string is removed entirely |
| `Slug.DropSpacesKeepsLast` | myapp/main.ts:27 | a string that is not all whitespace keeps a non-empty rest ending in its last character |
| `Slug.CollapseAppend` | myapp/main.ts:27 | whitespace replacement distributes over a seam that does not split a run |
| `Slug.CollapseNoSpace` | myapp/main.ts:27 | a string without whitespace is left alone by the replacement |
| `Slug.KebabAppend` | myapp/main.ts:24-29 | `toKebabCase(a + b) == toKebabCase(a) + toKebabCase(b)` whenever the seam does not split a whitespace run |
| `Slug.KebabOfSpaces` | myapp/main.ts:27-28 | a non-empty whitespace run alone becomes a single `-` |
| `Slug.KebabSpaceRun` | myapp/main.ts:26-28 | each maximal whitespace run between two pieces becomes exactly one `-` |
| `Slug.KebabIdempotent` | myapp/main.ts:24-29 | applying the slug function to its own result changes nothing |
| `Slug.KebabWord` | myapp/main.ts:26-28 | without whitespace the slug is the lowercased input filtered to `[a-z0-9-]` |
| `Slug.KebabSea` | myapp/main.ts:26-28 | `"Sea"` gives `"sea"` |
| `Slug.KebabExampleWords2` | myapp/main.ts:26-28 | `"Man"`, `"o'"` and `"War"` give `"man"`, `"o"` and `"war"` |
| `Slug.KebabManOWar` | myapp/main.ts:26-28 | `"Man o' War"` gives `"man-o-war"`: the apostrophe is dropped after the spaces have become hyphens |
| `Slug.KebabHyphensKept` | myapp/main.ts:26-28 | `"a - b"` gives `"a---b"`: existing hyphens are kept |
| `Slug.KebabBang` | myapp/main.ts:28 | `"!"` gives the empty string |
| `Slug.KebabBisCuit` | myapp/main.ts:26-28 | `"Bis"` and `"cuit"` give `"bis"` and `"cuit"` |
| `Slug.KebabBiscuit` | myapp/main.ts:26-28 | `"Biscuit!"` gives `"biscuit"` |
| `Slug.KebabSeaBiscuit` | myapp/main.ts:26-28 | `"Sea  Biscuit!"` gives `"sea-biscuit"`: a run of two spaces becomes one hyphen |
| `Paths.Split` | myapp/main.ts:41 | `split("/")` gives at least one piece and no piece contains the separator |
| `Paths.JoinSplit` | myapp/main.ts:41 | joining the pieces with the separator gives back the path |
| `Paths.SplitNoSep` | myapp/main.ts:41 | a string without the separator is a single piece |
| `Paths.SplitAtSep` | myapp/main.ts:41 | splitting at a separator splits the two sides independently |
| `Paths.SplitJoin` | myapp/main.ts:41 | splitting a join of separator-free pieces gives the pieces back |
| `Paths.IdSegment` | myapp/main.ts:41 | a present id is non-empty and contains no `/` |
| `Paths.IdSegmentPresent` | myapp/main.ts:41 | in `/<first>/<id>` and `/<first>/<id>/<rest>` the id is the third piece |
| `Paths.IdSegmentAbsent` | myapp/main.ts:41 | `/<first>`, `/<first>/` and `/<first>//<rest>` carry no id |
| `Paths.DigitValue` | myapp/main.ts:57 | a digit's value is below 10 |
| `Paths.Digit` | myapp/main.ts:57 | the digit written for a value below 10 has that value |
| `Paths.ParseId` | myapp/main.ts:57 | an id text matches a key exactly when it is a decimal numeral |
| `Paths.DecimalString` | myapp/main.ts:72 | an id is written as a numeral without superfluous leading zeros |
| `Paths.ParseDecimal` | myapp/main.ts:57 | reading back the numeral of an id gives the id |
| `Paths.NumeralValuePositive` | myapp/main.ts:57 | a numeral that does not start with `0` denotes a positive value |
| `Paths.DecimalParse` | myapp/main.ts:57 | writing the value of a canonical numeral gives the numeral back |
| `Store.Permalink` | myapp/main.ts:69 | the permalink is `horsetider.dev/` followed by a slug |
| `Store.FindById` | myapp/main.ts:57 | the row found carries the id and is in the table, and nothing is found exactly when no row has the id |
| `Store.FindByIdOfRow` | myapp/main.ts:12 | with `AUTOINCREMENT` ids, every row is found by its own id |
| `Store.FindByIdAppend` | myapp/main.ts:70-71 | appending a row leaves every earlier lookup unchanged, and makes a previously absent id find the new row |
| `Store.HorseTable.constructor` | myapp/main.ts:10-17 | a fresh table is empty and starts handing out ids at 1 |
| `Store.HorseTable.Insert` | myapp/main.ts:70 | succeeds exactly when an id is left, and then appends one row whose id is larger than every existing one and whose permalink is computed from the name; a failed insert changes nothing |
| `Router.Route` | myapp/main.ts:43-78 | the branch taken: 404 exactly outside `/horse…`, list exactly on GET without an id, fetch exactly on GET with one, create on POST, and 405 on anything else |
| `Router.ListResponse` | myapp/main.ts:48-53 | the whole table as JSON, with status 200 exactly when it is non-empty and 404 exactly when it is empty |
| `Router.FetchResponse` | myapp/main.ts:56-64 | 200 exactly when the id is a numeral and some row has that id, and then the JSON of a row with that id; otherwise 404 "Horse not found" |
| `Router.Handle` | myapp/main.ts:38-82 | the response of each branch, and that only a POST under `/horse` changes the table: it appends one row with a fresh id and the computed permalink and answers 201 with that row, or answers 500 and changes nothing |
| `Router.RouteFetch` | myapp/main.ts:41-56 | the path test is a prefix test only, so `/horses/5` reaches the fetch branch with id `5` |
| `Router.RouteList` | myapp/main.ts:41-78 | `/horse` and `/horse/` take the list branch on GET, and another method there gets 405 |
| `Router.FetchAfterInsert` | myapp/main.ts:56-71 | after an insert, GET `/horse/<new id>` answers 200 with exactly the inserted row |
| `Router.CreateThenFetch` | myapp/main.ts:56-75 | a POST answers 201 with the slugged permalink, and a GET of the returned id gives the same record |

## Left out

- Opening the database, `CREATE TABLE`, the start-up logging and `Deno.exit(1)` (myapp/main.ts:6-22) are process start-up and I/O. Only the schema's `AUTOINCREMENT` key is kept, as `HorseTable.nextId`.
- `serve`, `new URL(req.url)` and `req.json()` belong to the HTTP and JSON libraries. The model receives the pathname as `url.pathname` yields it, with dot segments already resolved and percent-escapes left as they are, so `/horse/%35` has the id text `%35`, which matches no row and gives 404 "Horse not found". The body arrives as an optional value.
- `JSON.stringify` output text is library serialisation. A JSON body is represented by the rows or the row it encodes.
- Slug.LowerChar: lowercases ASCII letters only. JavaScript's `toLowerCase` also maps other letters, for example U+212A KELVIN SIGN to `k` and U+0130 to `i` followed by a combining dot, so for such names the stored slug can differ.
- Paths.ParseId: matches decimal digit strings only. SQLite's numeric affinity would also turn a text such as `+5` or `05.0` into the key 5; those ids are answered 404 in the model.
- A body that is not JSON, whose `name` is not a string, or whose `name` or `age` is missing fails in `req.json()`, in `toKebabCase` or on the NOT NULL constraint. The model folds all of these into the absent body, which leads to the 500 branch.
- Router.Handle: `age` is modelled as an integer only. The table is not declared STRICT, so SQLite stores whatever `age` the body carries: a fraction is stored as REAL, and a string such as `"three"` is stored as TEXT. The handler then answers 201 with that value. The model cannot express such bodies and does not claim they give 500.
- Router.CreateThenFetch, Router.FetchAfterInsert and Store.MaxRowId: ids are exact integers up to 2^63-1. In the handler an id becomes a JavaScript number (or a BigInt) before `JSON.stringify`. Above 2^53 a number no longer holds the id exactly, and a BigInt makes `JSON.stringify` throw, which gives a 500. So the promise that the client gets its row back by the id it was sent holds in the source only for ids up to 2^53.
- Router.Handle: the rows returned by `SELECT *` are in insertion order. This order is part of the table invariant, but it is not stated separately for the list response.
- Concurrent requests and `console.error` logging (myapp/main.ts:80) are not modelled. Storage errors other than running out of ids are not modelled either: an I/O failure would also give a 500.
