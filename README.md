# firebird-mcp-server in Dafny

A model of the sequential core of an MCP server that exposes a Firebird database as tools.
It covers two parts of the code.

- **Configuration loading** (`src/config/firebird.config.ts`), in module `FirebirdConfig`.
  - `parseArguments` walks the command line with an index loop and builds a partial configuration from `--key value` pairs. Here it is the method `ParseArguments`, proved against the recursive function `Parse`.
  - `getFirebirdConfig` picks the schema fields out of that configuration, forces `lowercase_keys: false` and `pageSize: 4096`, and validates the result. Here it is the method `GetFirebirdConfig` and the function `Validate`.
- **Text logic of the tool handlers** (`src/index.ts`), in module `Server`.
  - `execute_query`: the read-only policy check and the database call.
  - `search_columns`: the two LIKE patterns it binds.
  - `list_tables` and `tables_details`: the text they build in loops from the rows the database returns. The loops are the methods `RenderTableList` and `RenderTableDetails`, proved against the functions `TableListing` and `TableDetails`.

The database is a parameter of each handler: a function from the call (SQL text and bound parameters) to a reply, which is either rows or a driver error message.
`JSON.stringify` and the text of the catalog queries are parameters too.
Two supporting modules complete the model.
- `JsText` holds the JavaScript primitives the code relies on: `trim`, `toUpperCase` restricted to ASCII, `startsWith`, `includes`, `parseInt` and the template-literal rendering of an integer.
  It also defines `Split`, which the server never calls: it exists only to state the line structure of the text `list_tables` and `tables_details` build (`Server.TableListingLines`, `Server.TableDetailsLines`).
- `SqlLike` gives the meaning of a LIKE pattern, so that the search patterns can be stated by what they select.

Two behaviours of the code differ from what its own tool descriptions suggest.
The `query` argument is described as "The SQL query to be executed (only read queries are allowed)", and the `limit` argument as "The maximum number of rows to be returned" (`src/index.ts:165-166`).
- The read-only check is a denylist of words, matched as substrings of the upper-cased statement after a leading `SELECT` has been replaced by `SELECT FIRST <limit>` (`src/index.ts:171-172`).
  - `Server.RejectionIgnoresRewrite` proves that this rewrite never adds a forbidden word, so the verdict is the denylist applied to the upper-cased query minus its leading `SELECT`.
  - `Server.RewriteHidesOverlappingTruncate` shows that the rewrite can hide one: in `SELECTRUNCATE`, the `TRUNCATE` overlaps the `SELECT` and goes with it.
- The rewritten statement is used only for the check; the database receives the original query (`src/index.ts:176`), so the limit does not bound the rows returned. See "## Findings".

The `search_columns` tool puts the table and column texts into its LIKE patterns unescaped.
A `_` typed by the user is therefore a wildcard: `user_id` also selects `USERXID` (`Server.UnderscoreMatchesAnyCharacter`).

## Model

| member | source | states |
|---|---|---|
| FirebirdConfig.UserArgs | src/config/firebird.config.ts:17 | the walked arguments are those after the runtime and the script path, none when only those two are present |
| FirebirdConfig.Convert | src/config/firebird.config.ts:26-34 | no contract of its own: the conversion chosen by the key; `ConvertByKey` states it |
| FirebirdConfig.ConvertByKey | src/config/firebird.config.ts:26-34 | `port` and `pageSize` store a number (`parseInt` of the value), `lowercase_keys` stores `true` iff the value is `true`, every other key stores the raw text |
| FirebirdConfig.Parse | src/config/firebird.config.ts:20-38 | no contract of its own: the walk stated recursively, a flag with a usable value storing its conversion and skipping the value, anything else passed over; `ParseArguments` is proved equal to it and `ParseKeys`, `ParseLastWins` and `ParseConverts` state what it stores |
| FirebirdConfig.ParseArguments | src/config/firebird.config.ts:16-41 | the index loop, including the `i++` that steps over a consumed value, builds exactly the partial configuration `Parse` describes |
| FirebirdConfig.ParseStoresFlagValue | src/config/firebird.config.ts:22-35 | a `--key` followed by a non-empty value not starting with `--` stores the converted value under `key`, and the walk resumes after the value |
| FirebirdConfig.ParseSkipsFlagWithoutValue | src/config/firebird.config.ts:24-25 | a `--key` whose next argument is absent, empty or a flag stores nothing, and the next argument is walked on its own |
| FirebirdConfig.ParseSkipsNonFlag | src/config/firebird.config.ts:21-22 | an argument that is not a flag and not a consumed value, such as `sse`, is ignored |
| FirebirdConfig.ParseKeys | src/config/firebird.config.ts:20-37 | a key is present after the walk iff some flag naming it is followed by a usable value; stepping over a value never hides a flag |
| FirebirdConfig.ParseLastWins | src/config/firebird.config.ts:26-34 | when a key is repeated, the value after its last well-formed flag is the one stored |
| FirebirdConfig.ParseConverts | src/config/firebird.config.ts:26-34 | every stored value is `Convert` of the argument that follows some well-formed flag for its key |
| FirebirdConfig.Validate | src/config/firebird.config.ts:3-12 | the schema accepts iff host, database, user and password are strings, port is a number (not NaN) and role, if present, is a string; failure carries the fixed message; success has the given fields and the two forced defaults |
| FirebirdConfig.ValidateReadsOnlySchemaKeys | src/config/firebird.config.ts:47-56 | only host, port, database, user, password and role are read; unknown keys and the parsed `lowercase_keys` and `pageSize` never reach the result |
| FirebirdConfig.ValidateNeedsRequiredKey | src/config/firebird.config.ts:4-8 | a missing required key fails validation with `Invalid Firebird configuration:` |
| FirebirdConfig.GetFirebirdConfig | src/config/firebird.config.ts:43-66 | loading is validation of the parsed command line; success always has `lowercase_keys = false` and `pageSize = 4096`; failure has the fixed message |
| FirebirdConfig.ConfigFailsWithoutRequiredFlag | src/config/firebird.config.ts:46-64 | without a well-formed flag for a required key, loading fails with `Invalid Firebird configuration:` |
| FirebirdConfig.ConfigFailsOnUnparsablePort | src/config/firebird.config.ts:27 | a last port value that `parseInt` cannot read (NaN) makes loading fail |
| FirebirdConfig.ConfigFromLastFlags | src/config/firebird.config.ts:47-56 | with every required key given and a numeric port, loading yields the values after the last flags, `false`, `4096`, and a role iff one was given |
| FirebirdConfig.ConfigRoleFromLastFlag | src/config/firebird.config.ts:53 | a given role is the value after its last well-formed flag |
| FirebirdConfig.LastStoreExists | src/config/firebird.config.ts:26-34 | a key given at least once has a last well-formed flag |
| FirebirdConfig.AcceptedHasAllKeys | src/config/firebird.config.ts:46-56 | a successful load implies host, database, user and password were given and the last port value is a number |
| FirebirdConfig.ConfigAcceptedIff | src/config/firebird.config.ts:43-66 | loading succeeds iff host, database, user and password are each given and the last port value is a number; role is optional |
| JsText.TrimStart | src/index.ts:70 | `trimStart` removes exactly the leading ECMAScript white space and line terminators |
| JsText.TrimEnd | src/index.ts:70 | `trimEnd` removes exactly the trailing ECMAScript white space and line terminators |
| JsText.Trim | src/index.ts:70 | no contract of its own: `trimEnd` after `trimStart`; `TrimIsSlice` and `TrimKeepsOut` state what it yields |
| JsText.TrimIsSlice | src/index.ts:70 | `trim` yields a contiguous piece of its input that neither starts nor ends with white space |
| JsText.TrimKeepsOut | src/index.ts:134 | a character absent from a text is absent from its trimmed form |
| JsText.Upper | src/index.ts:171 | upper-casing keeps the length, maps each character by `UpperChar` and leaves no lower-case ASCII letter |
| JsText.IntToString | src/index.ts:171 | the template-literal text of an integer is a non-empty run of decimal digits and minus signs ending in a digit; `ParseIntOfIntToString` proves `parseInt` reads it back |
| JsText.ParseInt | src/config/firebird.config.ts:27 | no contract of its own: leading white space is skipped, then a sign, an optional `0x` and the longest run of digits are read, NaN when there is none; `ParseIntOfIntToString` states its round trip with the template-literal text |
| JsText.ParseIntOfIntToString | src/config/firebird.config.ts:27 | `parseInt` reads back the decimal text of every integer |
| JsText.SplitJoined | src/index.ts:73-74 | text built by appending each line and a line break splits back into those lines and a final empty line, when no line holds a line break |
| SqlLike.LikeAnything | src/index.ts:225 | the pattern `%` selects every name |
| SqlLike.LikeContains | src/index.ts:225 | `%t%` with a wildcard-free `t` selects exactly the names that contain `t` |
| SqlLike.LikePrefix | src/index.ts:225 | `t%` with a wildcard-free `t` selects exactly the names that start with `t` |
| SqlLike.LikePrefixFits | src/index.ts:225 | `t%` with a `%`-free `t` selects exactly the names whose start `t` fits character by character, `_` standing for any one character |
| SqlLike.LikeWithin | src/index.ts:225 | `%t%` with a `%`-free `t` selects exactly the names with a window that `t` fits, `_` standing for any one character |
| SqlLike.LikeSuffix | src/index.ts:225 | `%q` selects a name iff `q` matches some suffix of it |
| Server.LimitClause | src/index.ts:171 | no contract of its own: `SELECT FIRST ` and the template-literal text of the limit; `NoCommandInLimitClause` and `LimitClauseIsHarmless` state that it holds no forbidden word |
| Server.ProcessedQuery | src/index.ts:171 | the checked text has no lower-case ASCII letter, and is the limit clause followed by the upper-cased query minus its `SELECT` when the upper-cased query starts with `SELECT`, the upper-cased query otherwise |
| Server.IsRejected | src/index.ts:172 | no contract of its own: the verdict, some forbidden word occurring in the checked text; `RejectionIgnoresRewrite` and `RejectionIgnoresLimit` state what it depends on |
| Server.ExecuteQuery | src/index.ts:170-199 | no database call is made iff the query is rejected; a rejected query answers the read-only error; an accepted one is sent unchanged with `[limit]` and answers `Query:` with the query and `Query result:` with the rendered rows, or the execution error prefix and the driver's message |
| Server.NoCommandInLimitClause | src/index.ts:171 | no forbidden word starts inside `SELECT FIRST <limit>` or straddles its end |
| Server.LimitClauseIsHarmless | src/index.ts:171-172 | prefixing the limit clause neither adds nor hides a forbidden word |
| Server.RejectionIgnoresRewrite | src/index.ts:170-172 | the query is rejected iff its upper-cased text minus a leading `SELECT` contains a forbidden word |
| Server.RejectionIgnoresLimit | src/index.ts:171-172 | the verdict does not depend on the limit |
| Server.RejectsWordContainingCommand | src/index.ts:172 | matching is by substring: a word such as `UPDATED_AT` or `CREATED` gets a query rejected |
| Server.RewriteHidesOverlappingTruncate | src/index.ts:171-172 | `SELECTRUNCATE` is accepted although its upper-cased text contains `TRUNCATE` |
| Server.OnlyLeadingSelectRewritten | src/index.ts:171 | a query not starting with `s` or `S`, for instance one with leading white space, is checked as its upper-cased text |
| Server.AcceptsPlainSelect | src/index.ts:170-172 | `SELECT * FROM T` is accepted for every limit |
| Server.LimitedStatement | src/index.ts:171 | the evidently intended statement: its upper-cased text is the checked text, it starts with the limit clause when the query starts with `SELECT`, and is the query otherwise |
| Server.ExecuteQueryLimited | src/index.ts:171-176 | corrected handler: the statement sent is the limited one, whose upper-cased text is the checked text, with `[limit]` |
| Server.LimitNotApplied | src/index.ts:176 | as written, `SELECT * FROM T` with limit 5 is sent unchanged, where the limited statement would be `SELECT FIRST 5 * FROM T` |
| Server.TablePattern | src/index.ts:225 | the table pattern is `%` iff the table is absent or empty |
| Server.TablePatternSelects | src/index.ts:225 | with no table given the pattern selects every relation; for a table text without `%` it selects the relations with a window the upper-cased text fits, `_` matching any one character; for a text without `%` or `_`, exactly the relations whose name contains the upper-cased text |
| Server.ColumnPattern | src/index.ts:225 | no contract of its own: `%`, the upper-cased column text unescaped, `%`; `ColumnPatternSelects` states what it selects |
| Server.ColumnPatternSelects | src/index.ts:225 | for a column text without `%` the pattern selects the fields with a window the upper-cased text fits, `_` matching any one character; for a text without `%` or `_`, exactly the fields whose name contains the upper-cased text |
| Server.UnderscoreMatchesAnyCharacter | src/index.ts:225 | a `_` in the column text is a wildcard: `user_id` selects `USERXID`, which does not contain `USER_ID` |
| Server.SearchColumns | src/index.ts:211-259 | one query with the two patterns as parameters; the answer is the fixed no-columns message iff the database returns no rows; other rows answer `Query:` with the SQL and `Columns found:` with the rendered rows; a driver error answers the search error prefix and its message |
| Server.TrimAll | src/index.ts:70 | one name per row, in order, each trimmed |
| Server.TableListing | src/index.ts:72-75 | no contract of its own: the title, an empty line, then each trimmed name followed by a line break; `RenderTableList` is proved to build it and `TableListingLines` states its line structure |
| Server.RenderTableList | src/index.ts:70-75 | the loop builds the header followed by each trimmed name and a line break, in order |
| Server.ListTables | src/index.ts:60-95 | one query without parameters; the listing of the returned names, or the listing error with the driver's message |
| Server.TableListingLines | src/index.ts:70-75 | read line by line, the listing is the title, an empty line, the trimmed names in order, and nothing after the last line break |
| Server.NullabilityText | src/index.ts:135 | `NOT NULL` iff the null flag is 1, otherwise `NULL` |
| Server.DescriptionSuffix | src/index.ts:136 | no suffix iff the description is null or empty; otherwise ` - ` and the trimmed description |
| Server.ColumnHead | src/index.ts:134-138 | no contract of its own: the trimmed column name, then type and length in parentheses, then a space; `ColumnLineNullability` states where it stands |
| Server.ColumnLine | src/index.ts:134-138 | no contract of its own: the head, then the nullability text and the description suffix; `ColumnLineNullability` states its shape |
| Server.ColumnLines | src/index.ts:133-139 | one line per row, in result order |
| Server.DetailsHeading | src/index.ts:130-131 | no contract of its own: `Table Details: ` and the table name, a line break, the 40-dash rule and an empty line; `DetailsHeadingLines` states its line structure |
| Server.TableDetails | src/index.ts:130-139 | no contract of its own: the heading followed by each column line and a line break; `RenderTableDetails` is proved to build it and `TableDetailsLines` states its line structure |
| Server.RenderTableDetails | src/index.ts:130-139 | the loop builds the heading, the rule and one line per column row, in order |
| Server.TablesDetails | src/index.ts:104-158 | one query with the table name as parameter; no rows answers the not-found message, rows answer the details, a driver error answers the error text |
| Server.NotFoundMessage | src/index.ts:124 | the message holds the table name asked for at index 9, right after the opening quote |
| Server.NotFoundNamesTable | src/index.ts:124 | the not-found message contains the table name asked for |
| Server.NullabilityLeads | src/index.ts:135-138 | whatever follows it, the nullability text starts with `NOT NULL` iff the null flag is 1 |
| Server.ColumnLineNullability | src/index.ts:134-138 | a column line starts with the trimmed name, type and length, and continues with `NOT NULL` iff the null flag is 1 |
| Server.TableDetailsLines | src/index.ts:130-139 | read line by line, the details are the heading, the 40-dash rule, an empty line, one line per column in order, and nothing after the last line break |

## Left out

- The `ping` tool, the prompt, MCP server construction and tool registration are library wiring.
- The zod schemas of the tool arguments are left out, including the default limit of 10. Every handler here takes its arguments already typed.
- The stdio and SSE transports and the HTTP routes are I/O.
- The database gateway `src/db/firebird.ts` (pool, connections, transactions) is not part of this model. The database is a function parameter. Asynchrony, connection handling and the timing of `detach` are not modelled.
- The SQL texts of the catalog queries are parameters. The engine's evaluation of them, including row order and its own LIKE, is not modelled. `SqlLike` gives LIKE a meaning only to state what the patterns select.
- `JSON.stringify` is a parameter of the handlers that render rows with it.
- A thrown value that is not an `Error` (the `'Unknown error'` text) is left out. A driver failure always carries a message here.
- The `console.error` report of the zod errors is output only and is left out.
- JsText.Upper: only ASCII letters are upper-cased. Full Unicode `toUpperCase` can change a text's length, for example `ß` becomes `SS`. It can also change the policy verdict: JavaScript upper-cases `ı` (U+0131) and `ſ` (U+017F) to the ASCII `I` and `S`, so the code rejects `ınsert` while this model accepts it.
- JsText.ParseInt: reads an optional sign, an optional `0x` prefix and a run of digits as an unbounded integer. The precision loss of very large numbers and `-0` are not modelled.
- Server.ExecuteQuery: the limit is an integer. A fractional `limit`, which the schema allows, would render differently in the limit clause.
- JsText.IntToString: the decimal text holds for integers below 10^21 in magnitude. From there on JavaScript writes the exponent form (`1e+21`), which changes `LimitClause` and `LimitedStatement` for such limits but not the verdict.
- Server.TablesDetails: `DATA_TYPE` and `FIELD_LENGTH` are integers, and a description is a string or null. Driver-specific BLOB handling of the description is not modelled.
- Server.TablePatternSelects: what the pattern selects is stated for a table text without `%`. A `%` typed by the user is an unescaped wildcard too, and the selection for such a text is not characterised.
- Server.ColumnPatternSelects: what the pattern selects is stated for a column text without `%`; a `%` typed by the user is an unescaped wildcard whose selection is not characterised.
- Server.SearchColumns: the `!result` guard for a missing result is not modelled. The database always answers rows or an error.
- FirebirdConfig.ParseArguments: keys are stored in a map. Keys with special meaning for JavaScript objects, such as `__proto__`, are not modelled.
- Server.TableListingLines: assumes no relation name holds a line break inside it. Server.TableDetailsLines assumes the same of the table name and each column line. Otherwise the line structure does not hold.

## Findings

| source | as written | input that shows it | evidently intended | confidence | as-written member | corrected member |
|---|---|---|---|---|---|---|
| src/index.ts:171-176 | the limit clause is built only for the policy check; the database receives the original query with `[limit]` | `execute_query("SELECT * FROM T", 5)` sends `SELECT * FROM T` | the statement sent is the rewritten one, `SELECT FIRST 5 * FROM T`, so at most `limit` rows come back | medium, not executed | Server.LimitNotApplied | Server.ExecuteQueryLimited |
