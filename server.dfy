/**
 * The text-level logic of the tool handlers of the server (src/index.ts): the read-only policy
 * of `execute_query`, the LIKE patterns of `search_columns`, and the text `list_tables` and
 * `tables_details` render from the rows the database returns. The database is a parameter: a
 * function from the call a handler makes to the driver's reply.
 */
module Server {
  import opened Wrappers
  import opened JsText
  import SqlLike

  /** What the driver answers to one query: rows, or a failure carrying the driver's message. */
  datatype DbReply<R> = Rows(rows: seq<R>) | DbError(message: string)

  /** A bound query parameter. */
  datatype Param = IntParam(number: int) | TextParam(text: string)

  /** One call of `FirebirdDB.query(sql, params)`. */
  datatype DbCall = DbCall(sql: string, params: seq<Param>)

  /** What a handler did: the database calls it made, in order, and the text items it answered. */
  datatype ToolReply = ToolReply(calls: seq<DbCall>, content: seq<string>)

  // ---------------------------------------------------------------------------------------------
  // execute_query

  const ForbiddenCommands: seq<string> :=
    ["INSERT", "UPDATE", "DELETE", "CREATE", "ALTER", "DROP", "TRUNCATE"]
  const ReadOnlyViolation := "Only read queries (SELECT) are allowed"
  const ExecuteErrorPrefix := "\U{274C} Error executing query:\n"

  /** The clause a leading `SELECT` is replaced with. */
  function LimitClause(limit: int): string {
    "SELECT FIRST " + IntToString(limit)
  }

  /** `query.toUpperCase().replace(/^SELECT/i, `SELECT FIRST ${limit}`)`: the text the policy checks. */
  function ProcessedQuery(query: string, limit: int): (checked: string)
    ensures forall i :: 0 <= i < |checked| ==> !IsLowerAscii(checked[i])
    ensures checked == (if StartsWith(Upper(query), "SELECT") then LimitClause(limit) else "") + QueryBody(query)
  {
    var upper := Upper(query);
    if StartsWith(upper, "SELECT") then LimitClause(limit) + upper[6..] else upper
  }

  /** `forbiddenCommands.some(cmd => processedQuery.includes(cmd))`. */
  predicate IsRejected(query: string, limit: int) {
    exists k :: 0 <= k < |ForbiddenCommands| && Includes(ProcessedQuery(query, limit), ForbiddenCommands[k])
  }

  /** The upper-cased query without the leading `SELECT` that the rewrite replaces. */
  function QueryBody(query: string): string {
    var upper := Upper(query);
    if StartsWith(upper, "SELECT") then upper[6..] else upper
  }

  /**
   * The `execute_query` handler: a rejected query answers the policy error without touching the
   * database; an accepted one is sent to the database unchanged, with `[limit]` as parameters,
   * and its rows are rendered by `json` (JSON.stringify).
   */
  function ExecuteQuery<R>(query: string, limit: int, db: DbCall -> DbReply<R>, json: seq<R> -> string)
    : (reply: ToolReply)
    ensures reply.calls == [] <==> IsRejected(query, limit)
    ensures IsRejected(query, limit) ==> reply.content == [ExecuteErrorPrefix + ReadOnlyViolation]
    ensures !IsRejected(query, limit) ==> reply.calls == [DbCall(query, [IntParam(limit)])]
    ensures !IsRejected(query, limit) && db(reply.calls[0]).Rows? ==>
      reply.content == ["Query:\n" + query, "Query result:\n" + json(db(reply.calls[0]).rows)]
    ensures !IsRejected(query, limit) && db(reply.calls[0]).DbError? ==>
      reply.content == [ExecuteErrorPrefix + db(reply.calls[0]).message]
  {
    if IsRejected(query, limit) then ToolReply([], [ExecuteErrorPrefix + ReadOnlyViolation])
    else
      var call := DbCall(query, [IntParam(limit)]);
      match db(call)
      case Rows(rows) => ToolReply([call], ["Query:\n" + query, "Query result:\n" + json(rows)])
      case DbError(message) => ToolReply([call], [ExecuteErrorPrefix + message])
  }

  /** Past `SELECT FIRS`, the limit clause holds a space, digits and a minus sign: no letter. */
  lemma NoLetterInClauseTail(limit: int, i: int)
    requires 12 <= i < |LimitClause(limit)|
    ensures !('A' <= LimitClause(limit)[i] <= 'Z')
  {
    var p := LimitClause(limit);
    if i == 12 {
      assert p[i] == "SELECT FIRST "[12];
    } else {
      assert p[i] == IntToString(limit)[i - 13];
    }
  }

  /** No two adjacent letters of `SELECT FIRST` begin a forbidden command. */
  lemma NoCommandStartsInKeyword(k: int, i: int)
    requires 0 <= k < |ForbiddenCommands|
    requires 0 <= i < 12
    ensures "SELECT FIRST "[i] != ForbiddenCommands[k][0] || "SELECT FIRST "[i + 1] != ForbiddenCommands[k][1]
  {
  }

  /** No forbidden command can start inside the limit clause, nor straddle its end. */
  lemma NoCommandInLimitClause(limit: int, body: string, k: int, i: int)
    requires 0 <= k < |ForbiddenCommands|
    requires 0 <= i < |LimitClause(limit)|
    ensures !OccursAt(LimitClause(limit) + body, ForbiddenCommands[k], i)
  {
    var p := LimitClause(limit);
    var w := ForbiddenCommands[k];
    var t := p + body;
    assert |w| >= 4 && 'A' <= w[0] <= 'Z';
    if i < 12 {
      assert p[..13] == "SELECT FIRST ";
      NoCommandStartsInKeyword(k, i);
      assert t[i] == p[i] && t[i + 1] == p[i + 1];
      assert t[i] != w[0] || t[i + 1] != w[1];
    } else {
      NoLetterInClauseTail(limit, i);
      assert t[i] == p[i];
      assert t[i] != w[0];
    }
  }

  /** Prefixing the limit clause neither adds nor hides a forbidden command. */
  lemma {:induction false} LimitClauseIsHarmless(limit: int, body: string, k: int)
    requires 0 <= k < |ForbiddenCommands|
    ensures Includes(LimitClause(limit) + body, ForbiddenCommands[k]) <==> Includes(body, ForbiddenCommands[k])
  {
    var p := LimitClause(limit);
    var w := ForbiddenCommands[k];
    var t := p + body;
    if Includes(body, w) {
      var i :| 0 <= i <= |body| && OccursAt(body, w, i);
      OccursShift(p, body, w, i);
    }
    if Includes(t, w) {
      var i :| 0 <= i <= |t| && OccursAt(t, w, i);
      if i < |p| {
        NoCommandInLimitClause(limit, body, k, i);
      } else {
        OccursShift(p, body, w, i - |p|);
      }
    }
  }

  /**
   * The verdict is the denylist applied to the upper-cased query minus a leading `SELECT`: the
   * rewrite never introduces a forbidden command, and the limit plays no part.
   */
  lemma {:induction false} RejectionIgnoresRewrite(query: string, limit: int)
    ensures IsRejected(query, limit)
        <==> exists k :: 0 <= k < |ForbiddenCommands| && Includes(QueryBody(query), ForbiddenCommands[k])
  {
    if StartsWith(Upper(query), "SELECT") {
      forall k | 0 <= k < |ForbiddenCommands|
        ensures Includes(ProcessedQuery(query, limit), ForbiddenCommands[k])
            <==> Includes(QueryBody(query), ForbiddenCommands[k])
      {
        LimitClauseIsHarmless(limit, QueryBody(query), k);
      }
    }
  }

  /** Whether a query is rejected does not depend on the limit. */
  lemma RejectionIgnoresLimit(query: string, limit1: int, limit2: int)
    ensures IsRejected(query, limit1) == IsRejected(query, limit2)
  {
    RejectionIgnoresRewrite(query, limit1);
    RejectionIgnoresRewrite(query, limit2);
  }

  /** A text whose every window of `w`'s width starts differently from `w` does not contain it. */
  lemma ExcludesByFirstTwo(s: string, w: string)
    requires |w| >= 2
    requires forall i :: 0 <= i && i + |w| <= |s| ==> s[i] != w[0] || s[i + 1] != w[1]
    ensures !Includes(s, w)
  {
    forall i | 0 <= i <= |s|
      ensures !OccursAt(s, w, i)
    {
      if i + |w| <= |s| {
        assert s[i..i + |w|][0] == s[i] && s[i..i + |w|][1] == s[i + 1];
      }
    }
  }

  /**
   * Matching is by substring: any word that merely starts with a forbidden command, such as a
   * column `UPDATED_AT` or `CREATED`, gets an otherwise read-only query rejected.
   */
  lemma RejectsWordContainingCommand(query: string, limit: int, k: int, rest: string)
    requires 0 <= k < |ForbiddenCommands|
    requires Includes(QueryBody(query), ForbiddenCommands[k] + rest)
    ensures IsRejected(query, limit)
  {
    var w := ForbiddenCommands[k];
    var body := QueryBody(query);
    var i :| 0 <= i <= |body| && OccursAt(body, w + rest, i);
    assert body[i..i + |w|] == body[i..i + |w + rest|][..|w|];
    assert OccursAt(body, w, i);
    RejectionIgnoresRewrite(query, limit);
  }

  /**
   * The check reads the rewritten text, not the upper-cased query: a `TRUNCATE` that overlaps the
   * leading `SELECT` disappears with it.
   */
  lemma RewriteHidesOverlappingTruncate(limit: int)
    ensures Includes(Upper("SELECTRUNCATE"), "TRUNCATE")
    ensures !IsRejected("SELECTRUNCATE", limit)
  {
    UpperFixed("SELECTRUNCATE");
    assert OccursAt("SELECTRUNCATE", "TRUNCATE", 5);
    assert QueryBody("SELECTRUNCATE") == "RUNCATE";
    forall k | 0 <= k < |ForbiddenCommands|
      ensures !Includes("RUNCATE", ForbiddenCommands[k])
    {
      ExcludesByFirstTwo("RUNCATE", ForbiddenCommands[k]);
    }
    RejectionIgnoresRewrite("SELECTRUNCATE", limit);
  }

  /** Only a `SELECT` at the very start is rewritten: a query starting with white space or any
      other letter is checked as its upper-cased text. */
  lemma OnlyLeadingSelectRewritten(query: string, limit: int)
    requires query != [] && query[0] != 's' && query[0] != 'S'
    ensures ProcessedQuery(query, limit) == Upper(query)
    ensures QueryBody(query) == Upper(query)
  {
    assert Upper(query)[0] != 'S';
  }

  /** A plain read is accepted. */
  lemma AcceptsPlainSelect(limit: int)
    ensures !IsRejected("SELECT * FROM T", limit)
  {
    UpperFixed("SELECT * FROM T");
    assert QueryBody("SELECT * FROM T") == " * FROM T";
    forall k | 0 <= k < |ForbiddenCommands|
      ensures !Includes(" * FROM T", ForbiddenCommands[k])
    {
      ExcludesByFirstTwo(" * FROM T", ForbiddenCommands[k]);
    }
    RejectionIgnoresRewrite("SELECT * FROM T", limit);
  }

  /**
   * The statement the handler evidently means to run: the query with its leading `SELECT`
   * replaced by the limit clause, keeping the case of the rest of the query.
   */
  function LimitedStatement(query: string, limit: int): (sql: string)
    ensures Upper(sql) == ProcessedQuery(query, limit)
    ensures StartsWith(Upper(query), "SELECT") ==> StartsWith(sql, LimitClause(limit))
    ensures !StartsWith(Upper(query), "SELECT") ==> sql == query
  {
    if StartsWith(Upper(query), "SELECT") then
      var clause := LimitClause(limit);
      assert forall i :: 0 <= i < |clause| ==> !IsLowerAscii(clause[i]) by {
        assert clause[..13] == "SELECT FIRST ";
        assert forall i :: 13 <= i < |clause| ==> clause[i] == IntToString(limit)[i - 13];
      }
      UpperFixed(clause);
      UpperAppend(clause, query[6..]);
      UpperSlice(query, 6);
      assert (clause + query[6..])[..|clause|] == clause;
      clause + query[6..]
    else query
  }

  /** `execute_query` as evidently intended: the statement sent to the database is the checked,
      row-limited one. */
  function ExecuteQueryLimited<R>(query: string, limit: int, db: DbCall -> DbReply<R>, json: seq<R> -> string)
    : (reply: ToolReply)
    ensures reply.calls == [] <==> IsRejected(query, limit)
    ensures IsRejected(query, limit) ==> reply.content == [ExecuteErrorPrefix + ReadOnlyViolation]
    ensures !IsRejected(query, limit) ==>
      && |reply.calls| == 1
      && Upper(reply.calls[0].sql) == ProcessedQuery(query, limit)
      && reply.calls[0].params == [IntParam(limit)]
  {
    if IsRejected(query, limit) then ToolReply([], [ExecuteErrorPrefix + ReadOnlyViolation])
    else
      var call := DbCall(LimitedStatement(query, limit), [IntParam(limit)]);
      match db(call)
      case Rows(rows) => ToolReply([call], ["Query:\n" + query, "Query result:\n" + json(rows)])
      case DbError(message) => ToolReply([call], [ExecuteErrorPrefix + message])
  }

  /**
   * As written, the limit never reaches the database: `SELECT * FROM T` with limit 5 is sent
   * as is, where the limited statement would have been `SELECT FIRST 5 * FROM T`.
   */
  lemma LimitNotApplied<R>(db: DbCall -> DbReply<R>, json: seq<R> -> string)
    ensures ExecuteQuery("SELECT * FROM T", 5, db, json).calls == [DbCall("SELECT * FROM T", [IntParam(5)])]
    ensures !StartsWith("SELECT * FROM T", LimitClause(5))
    ensures ExecuteQueryLimited("SELECT * FROM T", 5, db, json).calls
         == [DbCall("SELECT FIRST 5 * FROM T", [IntParam(5)])]
  {
    AcceptsPlainSelect(5);
    ClauseOfFive();
    assert "SELECT * FROM T"[..14] != "SELECT FIRST 5" by {
      assert "SELECT * FROM T"[7] == '*';
    }
    LimitedPlainSelect();
  }

  lemma ClauseOfFive()
    ensures LimitClause(5) == "SELECT FIRST 5"
  {
    assert IntToString(5) == "5";
  }

  lemma LimitedPlainSelect()
    ensures LimitedStatement("SELECT * FROM T", 5) == "SELECT FIRST 5 * FROM T"
  {
    UpperFixed("SELECT * FROM T");
    ClauseOfFive();
  }

  // ---------------------------------------------------------------------------------------------
  // search_columns

  const NoColumnsFound := "No columns found " + "with the specified criteria."
  const SearchErrorPrefix := "\U{274C} Error searching columns:\n"

  /** `table ? `%${table.toUpperCase()}%` : '%'`. */
  function TablePattern(table: Option<string>): (pattern: string)
    ensures pattern == "%" <==> table.None? || table.value == ""
  {
    if table.Some? && table.value != "" then "%" + Upper(table.value) + "%" else "%"
  }

  /** `%${column.toUpperCase()}%`. */
  function ColumnPattern(column: string): string {
    "%" + Upper(column) + "%"
  }

  /**
   * The `search_columns` handler: one catalog query (its text `searchSql` is not modelled) with
   * the table and column patterns as parameters; no rows is a message, not an error.
   */
  function SearchColumns<R>(table: Option<string>, column: string, searchSql: string,
                            db: DbCall -> DbReply<R>, json: seq<R> -> string): (reply: ToolReply)
    ensures reply.calls == [DbCall(searchSql, [TextParam(TablePattern(table)), TextParam(ColumnPattern(column))])]
    ensures |reply.content| >= 1
    ensures reply.content == [NoColumnsFound] <==> db(reply.calls[0]) == Rows([])
    ensures db(reply.calls[0]).Rows? && db(reply.calls[0]).rows != [] ==>
      reply.content == ["Query:\n" + searchSql, "Columns found:\n" + json(db(reply.calls[0]).rows)]
    ensures db(reply.calls[0]).DbError? ==> reply.content == [SearchErrorPrefix + db(reply.calls[0]).message]
  {
    var call := DbCall(searchSql, [TextParam(TablePattern(table)), TextParam(ColumnPattern(column))]);
    match db(call)
    case Rows(rows) =>
      if |rows| == 0 then ToolReply([call], [NoColumnsFound])
      else ToolReply([call], ["Query:\n" + searchSql, "Columns found:\n" + json(rows)])
    case DbError(message) =>
      assert (SearchErrorPrefix + message)[0] != NoColumnsFound[0];
      ToolReply([call], [SearchErrorPrefix + message])
  }

  lemma UpperKeepsLiteral(t: string)
    requires SqlLike.IsLiteral(t)
    ensures SqlLike.IsLiteral(Upper(t))
  {
  }

  lemma UpperKeepsNoPercent(t: string)
    requires SqlLike.NoPercent(t)
    ensures SqlLike.NoPercent(Upper(t))
  {
  }

  /**
   * Under LIKE, the table pattern selects every relation when no table is given. Otherwise the
   * table text goes into the pattern unescaped: a `_` in it stands for any one character, so a
   * text without `%` selects the relations with a window that the upper-cased text fits, and a
   * text without `%` or `_` selects exactly the relations whose name contains it.
   */
  lemma TablePatternSelects(table: Option<string>, relation: string)
    ensures table.None? || table.value == "" ==> SqlLike.Like(TablePattern(table), relation)
    ensures table.Some? && table.value != "" && SqlLike.NoPercent(table.value) ==>
      (SqlLike.Like(TablePattern(table), relation) <==> SqlLike.FitsWithin(relation, Upper(table.value)))
    ensures table.Some? && table.value != "" && SqlLike.IsLiteral(table.value) ==>
      (SqlLike.Like(TablePattern(table), relation) <==> Includes(relation, Upper(table.value)))
  {
    if table.Some? && table.value != "" {
      if SqlLike.NoPercent(table.value) {
        UpperKeepsNoPercent(table.value);
        SqlLike.LikeWithin(Upper(table.value), relation);
      }
      if SqlLike.IsLiteral(table.value) {
        UpperKeepsLiteral(table.value);
        SqlLike.LikeContains(Upper(table.value), relation);
      }
    } else {
      SqlLike.LikeAnything(relation);
    }
  }

  /**
   * Under LIKE, the column pattern selects the fields with a window that the upper-cased column
   * text fits, `_` standing for any one character, when the text has no `%`; and exactly the
   * fields whose name contains the upper-cased text when it has neither `%` nor `_`.
   */
  lemma ColumnPatternSelects(column: string, field: string)
    ensures SqlLike.NoPercent(column) ==>
      (SqlLike.Like(ColumnPattern(column), field) <==> SqlLike.FitsWithin(field, Upper(column)))
    ensures SqlLike.IsLiteral(column) ==>
      (SqlLike.Like(ColumnPattern(column), field) <==> Includes(field, Upper(column)))
  {
    if SqlLike.NoPercent(column) {
      UpperKeepsNoPercent(column);
      SqlLike.LikeWithin(Upper(column), field);
    }
    if SqlLike.IsLiteral(column) {
      UpperKeepsLiteral(column);
      SqlLike.LikeContains(Upper(column), field);
    }
  }

  /** A `_` typed in the column text is a wildcard: `user_id` also selects `USERXID`, a name that
      does not contain `USER_ID`. */
  lemma UnderscoreMatchesAnyCharacter()
    ensures SqlLike.Like(ColumnPattern("user_id"), "USERXID")
    ensures !Includes("USERXID", Upper("user_id"))
  {
    var t := Upper("user_id");
    assert t == "USER_ID";
    ColumnPatternSelects("user_id", "USERXID");
    assert "USERXID"[0..|t|] == "USERXID";
    assert SqlLike.FitsAt("USERXID", t, 0);
    assert !OccursAt("USERXID", t, 0) by {
      assert "USERXID"[4] != t[4];
    }
  }

  // ---------------------------------------------------------------------------------------------
  // list_tables

  const ListTablesTitle := "Tables found " + "in the Firebird database:"
  const ListTablesHeader := ListTablesTitle + "\n\n"
  const ListTablesErrorPrefix := "\U{274C} Error listing tables:\n"

  /** `result.map(row => row.RDB$RELATION_NAME.trim())`. */
  function TrimAll(names: seq<string>): (r: seq<string>)
    ensures |r| == |names|
    ensures forall i :: 0 <= i < |names| ==> r[i] == Trim(names[i])
  {
    seq(|names|, i requires 0 <= i < |names| => Trim(names[i]))
  }

  /** The text `list_tables` answers for the relation names the catalog query returns. */
  function TableListing(names: seq<string>): string {
    ListTablesHeader + Join(TrimAll(names))
  }

  /** The loop of `list_tables`: the header, then `${table}\n` for each trimmed name. */
  method RenderTableList(names: seq<string>) returns (output: string)
    ensures output == TableListing(names)
  {
    var tables := TrimAll(names);
    output := ListTablesHeader;
    var i := 0;
    while i < |tables|
      invariant 0 <= i <= |tables|
      invariant output == ListTablesHeader + Join(tables[..i])
    {
      JoinPrefix(tables, i);
      ConcatAssoc(ListTablesHeader, Join(tables[..i]), tables[i] + "\n");
      output := output + (tables[i] + "\n");
      i := i + 1;
    }
    assert tables[..i] == tables;
  }

  /**
   * The `list_tables` handler: one catalog query (its text `listSql` is not modelled, it takes no
   * parameters), then the listing of the names it returns, or the driver's error.
   */
  method ListTables(listSql: string, db: DbCall -> DbReply<string>) returns (reply: ToolReply)
    ensures reply.calls == [DbCall(listSql, [])]
    ensures db(reply.calls[0]).Rows? ==> reply.content == [TableListing(db(reply.calls[0]).rows)]
    ensures db(reply.calls[0]).DbError? ==>
              reply.content == [ListTablesErrorPrefix + db(reply.calls[0]).message]
  {
    var call := DbCall(listSql, []);
    var result := db(call);
    if result.DbError? {
      return ToolReply([call], [ListTablesErrorPrefix + result.message]);
    }
    var output := RenderTableList(result.rows);
    reply := ToolReply([call], [output]);
  }

  lemma TitleHasNoNewline()
    ensures '\n' !in ListTablesTitle
  {
    assert '\n' !in "Tables found ";
    assert '\n' !in "in the Firebird database:";
  }

  /** Read back line by line, the listing is the title, an empty line, each trimmed name, and
      nothing after the last line break, provided no name holds a line break inside it. */
  lemma ListingHeaderLines()
    ensures ListTablesHeader == Join([ListTablesTitle, ""])
  {
    JoinTwo(ListTablesTitle, "");
    assert "" + "\n" == "\n";
  }

  lemma TableListingLines(names: seq<string>)
    requires forall k :: 0 <= k < |names| ==> '\n' !in names[k]
    ensures Split(TableListing(names)) == [ListTablesTitle, ""] + TrimAll(names) + [""]
  {
    var lines := TrimAll(names);
    var all := [ListTablesTitle, ""] + lines;
    ListingHeaderLines();
    JoinAppend([ListTablesTitle, ""], lines);
    TitleHasNoNewline();
    forall k | 0 <= k < |all| ensures '\n' !in all[k] {
      if k >= 2 {
        assert all[k] == Trim(names[k - 2]);
        TrimKeepsOut(names[k - 2], '\n');
      }
    }
    SplitJoined(all);
  }

  // ---------------------------------------------------------------------------------------------
  // tables_details

  /** One row of the column catalog query: `RDB$NULL_FLAG` is 1 or null, `RDB$DESCRIPTION` may be
      null. */
  datatype ColumnRow = ColumnRow(columnName: string, dataType: int, fieldLength: int,
                                 nullFlag: Option<int>, description: Option<string>)

  const DetailsRuleLine := "--------------------" + "--------------------"
  const DetailsErrorPrefix := "\U{274C} Error listing table details:\n"

  /** `❌ Table "${table_name}" not found.` */
  function NotFoundMessage(tableName: string): (message: string)
    ensures OccursAt(message, tableName, 9)
  {
    "\U{274C} Table \"" + tableName + "\" not found."
  }

  /** `row.IS_NULLABLE === 1 ? 'NOT NULL' : 'NULL'`. */
  function NullabilityText(nullFlag: Option<int>): (text: string)
    ensures text == "NOT NULL" <==> nullFlag == Some(1)
    ensures text == "NULL" <==> nullFlag != Some(1)
  {
    if nullFlag == Some(1) then "NOT NULL" else "NULL"
  }

  /** `row.DESCRIPTION ? ` - ${row.DESCRIPTION.trim()}` : ''`: a null or empty description is
      falsy and leaves no suffix. */
  function DescriptionSuffix(description: Option<string>): (suffix: string)
    ensures suffix == "" <==> description.None? || description.value == ""
    ensures suffix != "" ==> StartsWith(suffix, " - ") && suffix[3..] == Trim(description.value)
  {
    if description.Some? && description.value != "" then " - " + Trim(description.value) else ""
  }

  /** The part of a column line before its nullability. */
  function ColumnHead(row: ColumnRow): string {
    Trim(row.columnName) + " (" + IntToString(row.dataType) + ", " + IntToString(row.fieldLength) + ") "
  }

  function ColumnLine(row: ColumnRow): string {
    ColumnHead(row) + (NullabilityText(row.nullFlag) + DescriptionSuffix(row.description))
  }

  function ColumnLines(rows: seq<ColumnRow>): (lines: seq<string>)
    ensures |lines| == |rows|
    ensures forall i :: 0 <= i < |rows| ==> lines[i] == ColumnLine(rows[i])
  {
    seq(|rows|, i requires 0 <= i < |rows| => ColumnLine(rows[i]))
  }

  /** The text `tables_details` answers for a table with at least one column. */
  function DetailsHeading(tableName: string): string {
    "Table Details: " + tableName + "\n" + (DetailsRuleLine + "\n\n")
  }

  function TableDetails(tableName: string, rows: seq<ColumnRow>): string {
    DetailsHeading(tableName) + Join(ColumnLines(rows))
  }

  /** The loop of `tables_details`: the heading and rule, then one line per column row. */
  method RenderTableDetails(tableName: string, rows: seq<ColumnRow>) returns (output: string)
    ensures output == TableDetails(tableName, rows)
  {
    output := "Table Details: " + tableName + "\n";
    output := output + (DetailsRuleLine + "\n\n");
    var i := 0;
    while i < |rows|
      invariant 0 <= i <= |rows|
      invariant output == DetailsHeading(tableName) + Join(ColumnLines(rows)[..i])
    {
      var row := rows[i];
      var columnName := Trim(row.columnName);
      var isNullable := if row.nullFlag == Some(1) then "NOT NULL" else "NULL";
      var description := if row.description.Some? && row.description.value != ""
                         then " - " + Trim(row.description.value) else "";
      var line := columnName + " (" + IntToString(row.dataType) + ", "
                  + IntToString(row.fieldLength) + ") " + (isNullable + description);
      assert line == ColumnLines(rows)[i];
      JoinPrefix(ColumnLines(rows), i);
      ConcatAssoc(DetailsHeading(tableName), Join(ColumnLines(rows)[..i]), line + "\n");
      output := output + (line + "\n");
      i := i + 1;
    }
    assert ColumnLines(rows)[..i] == ColumnLines(rows);
  }

  /**
   * The `tables_details` handler: one catalog query (its text `detailsSql` is not modelled) with
   * the table name as its parameter; no rows means the table is not found.
   */
  method TablesDetails(tableName: string, detailsSql: string, db: DbCall -> DbReply<ColumnRow>)
    returns (reply: ToolReply)
    ensures reply.calls == [DbCall(detailsSql, [TextParam(tableName)])]
    ensures db(reply.calls[0]) == Rows([]) ==> reply.content == [NotFoundMessage(tableName)]
    ensures db(reply.calls[0]).Rows? && db(reply.calls[0]).rows != [] ==>
              reply.content == [TableDetails(tableName, db(reply.calls[0]).rows)]
    ensures db(reply.calls[0]).DbError? ==>
              reply.content == [DetailsErrorPrefix + db(reply.calls[0]).message]
  {
    var call := DbCall(detailsSql, [TextParam(tableName)]);
    var result := db(call);
    if result.DbError? {
      return ToolReply([call], [DetailsErrorPrefix + result.message]);
    }
    if |result.rows| == 0 {
      return ToolReply([call], [NotFoundMessage(tableName)]);
    }
    var output := RenderTableDetails(tableName, result.rows);
    reply := ToolReply([call], [output]);
  }

  /** The not-found message names the table that was asked for. */
  lemma NotFoundNamesTable(tableName: string)
    ensures Includes(NotFoundMessage(tableName), tableName)
  {
    var m := NotFoundMessage(tableName);
    assert m == "\U{274C} Table \"" + tableName + "\" not found.";
    assert OccursAt(m, tableName, 9);
  }

  /** Whatever follows it, the nullability text starts with `NOT NULL` exactly when the null
      flag is 1. */
  lemma NullabilityLeads(nullFlag: Option<int>, suffix: string)
    ensures StartsWith(NullabilityText(nullFlag) + suffix, "NOT NULL") <==> nullFlag == Some(1)
  {
    var text := NullabilityText(nullFlag) + suffix;
    if nullFlag == Some(1) {
      ConcatParts("NOT NULL", suffix);
    } else {
      assert text[1] == 'U';
    }
  }

  /** A column line starts with the column's head, and what follows the head starts with
      `NOT NULL` exactly when the column's null flag is 1. */
  lemma ColumnLineNullability(row: ColumnRow)
    ensures StartsWith(ColumnLine(row), ColumnHead(row))
    ensures StartsWith(ColumnLine(row)[|ColumnHead(row)|..], "NOT NULL") <==> row.nullFlag == Some(1)
  {
    var rest := NullabilityText(row.nullFlag) + DescriptionSuffix(row.description);
    ConcatParts(ColumnHead(row), rest);
    NullabilityLeads(row.nullFlag, DescriptionSuffix(row.description));
  }

  lemma HeadingHasNoNewline(tableName: string)
    requires '\n' !in tableName
    ensures '\n' !in "Table Details: " + tableName
  {
    var p := "Table Details: ";
    assert forall i :: 0 <= i < |p| ==> p[i] != '\n';
  }

  lemma RuleHasNoNewline()
    ensures '\n' !in DetailsRuleLine
  {
    assert '\n' !in "--------------------";
  }

  /** Read back line by line, the details are the heading, the rule, an empty line, one line per
      column, and nothing after the last line break, provided no text in them holds a line break
      inside it. */
  lemma DetailsHeadingLines(tableName: string)
    ensures DetailsHeading(tableName) == Join(["Table Details: " + tableName, DetailsRuleLine, ""])
  {
    var heading := "Table Details: " + tableName;
    JoinTwo(DetailsRuleLine, "");
    assert "" + "\n" == "\n";
    JoinAppend([heading], [DetailsRuleLine, ""]);
    assert [heading] + [DetailsRuleLine, ""] == [heading, DetailsRuleLine, ""];
    assert Join([heading]) == heading + "\n" by {
      assert [heading][..0] == [];
    }
    ConcatAssoc(heading, "\n", DetailsRuleLine + "\n" + "\n");
  }

  lemma DetailsLinesHaveNoNewline(tableName: string, rows: seq<ColumnRow>)
    requires '\n' !in tableName
    requires forall k :: 0 <= k < |rows| ==> '\n' !in ColumnLine(rows[k])
    ensures var all := ["Table Details: " + tableName, DetailsRuleLine, ""] + ColumnLines(rows);
            forall k :: 0 <= k < |all| ==> '\n' !in all[k]
  {
    var heading := "Table Details: " + tableName;
    var lines := ColumnLines(rows);
    var all := [heading, DetailsRuleLine, ""] + lines;
    HeadingHasNoNewline(tableName);
    RuleHasNoNewline();
    forall k | 0 <= k < |all| ensures '\n' !in all[k] {
      if k == 0 {
        assert all[k] == heading;
      } else if k == 1 {
        assert all[k] == DetailsRuleLine;
      } else if k == 2 {
        assert all[k] == "";
      } else {
        assert all[k] == lines[k - 3];
      }
    }
  }

  lemma TableDetailsLines(tableName: string, rows: seq<ColumnRow>)
    requires '\n' !in tableName
    requires forall k :: 0 <= k < |rows| ==> '\n' !in ColumnLine(rows[k])
    ensures Split(TableDetails(tableName, rows))
         == ["Table Details: " + tableName, DetailsRuleLine, ""] + ColumnLines(rows) + [""]
  {
    var all := ["Table Details: " + tableName, DetailsRuleLine, ""] + ColumnLines(rows);
    DetailsHeadingLines(tableName);
    JoinAppend(["Table Details: " + tableName, DetailsRuleLine, ""], ColumnLines(rows));
    DetailsLinesHaveNoNewline(tableName, rows);
    SplitJoined(all);
  }
}
