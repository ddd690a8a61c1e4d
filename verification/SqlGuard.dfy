/** The read-only SQL guard over a lexed statement, and the agent's retry loop. */
module SqlGuard {
  import opened Collections
  import opened Text

  /** Lexer token types the guard tells apart; `Keyword` is the bare type, `Dml` and
      `Ddl` its subtypes, `OtherKeyword` every further subtype. */
  datatype TokenType =
    | Whitespace | Comment | CommentSingle | CommentMultiline
    | Punctuation | Keyword | Dml | Ddl | OtherKeyword | Name | Other

  datatype Token = Token(kind: TokenType, value: string)

  /** `upper` and `lower` stand for Python's case mappings. */
  datatype Case = Case(upper: string -> string, lower: string -> string)

  const FORBIDDEN: set<string> := {
    "INSERT", "UPDATE", "DELETE", "DROP", "ALTER", "CREATE", "TRUNCATE",
    "REPLACE", "GRANT", "REVOKE", "ATTACH", "DETACH", "PRAGMA", "VACUUM",
    "REINDEX", "EXEC", "EXECUTE", "MERGE", "INTO", "RENAME", "COMMIT"}

  predicate Skipped(t: Token) {
    t.kind.Whitespace? || t.kind.Comment? || t.kind.CommentSingle? || t.kind.CommentMultiline?
  }

  predicate OpensParenthesis(t: Token) { t.kind.Punctuation? && t.value == "(" }

  predicate IsSource(cs: Case, t: Token) {
    t.kind.Keyword? && (cs.upper(t.value) == "FROM" || cs.upper(t.value) == "JOIN")
  }

  predicate IsForbidden(cs: Case, t: Token) {
    (t.kind.Keyword? || t.kind.Dml? || t.kind.Ddl?) && cs.upper(t.value) in FORBIDDEN
  }

  predicate IsQuote(c: char) { c == '"' || c == '`' || c == '[' || c == ']' }

  /** `value.strip('"`[]').lower()` */
  function TableName(cs: Case, t: Token): string { cs.lower(Trim(t.value, IsQuote)) }

  // ---- the scans ----------------------------------------------------------------

  /** `_first_keyword`: an early-exit scan. */
  method FirstKeyword(cs: Case, toks: seq<Token>) returns (r: Option<string>)
    ensures r.None? <==> forall i :: 0 <= i < |toks| ==> Skipped(toks[i]) || OpensParenthesis(toks[i])
    ensures r.Some? ==> exists i :: 0 <= i < |toks| && Leads(toks, i) && r.value == cs.upper(toks[i].value)
  {
    for i := 0 to |toks|
      invariant forall j :: 0 <= j < i ==> Skipped(toks[j]) || OpensParenthesis(toks[j])
    {
      if Skipped(toks[i]) {
        continue;
      }
      if OpensParenthesis(toks[i]) {
        continue;
      }
      assert Leads(toks, i);
      return Some(cs.upper(toks[i].value));
    }
    return None;
  }

  /** Token `i` is the first that is neither skipped nor an opening parenthesis. */
  ghost predicate Leads(toks: seq<Token>, i: int) {
    && 0 <= i < |toks| && !Skipped(toks[i]) && !OpensParenthesis(toks[i])
    && forall j :: 0 <= j < i ==> Skipped(toks[j]) || OpensParenthesis(toks[j])
  }

  /** `_ensure_no_forbidden`: the offending keyword, if any. */
  method FindForbidden(cs: Case, toks: seq<Token>) returns (r: Option<string>)
    ensures r.None? <==> forall i :: 0 <= i < |toks| ==> !IsForbidden(cs, toks[i])
    ensures r.Some? ==> exists i :: FirstForbidden(cs, toks, i) && r.value == cs.upper(toks[i].value)
  {
    for i := 0 to |toks|
      invariant forall j :: 0 <= j < i ==> !IsForbidden(cs, toks[j])
    {
      if IsForbidden(cs, toks[i]) {
        assert FirstForbidden(cs, toks, i);
        return Some(cs.upper(toks[i].value));
      }
    }
    return None;
  }

  ghost predicate FirstForbidden(cs: Case, toks: seq<Token>, i: int) {
    0 <= i < |toks| && IsForbidden(cs, toks[i]) && forall j :: 0 <= j < i ==> !IsForbidden(cs, toks[j])
  }

  /** The last significant token before position `i`, -1 if there is none. */
  ghost function Previous(toks: seq<Token>, i: int): (j: int)
    requires 0 <= i <= |toks|
    ensures -1 <= j < i && (j >= 0 ==> !Skipped(toks[j]))
    ensures forall m :: j < m < i ==> Skipped(toks[m])
  {
    if i == 0 then -1 else if !Skipped(toks[i - 1]) then i - 1 else Previous(toks, i - 1)
  }

  /** Declarative meaning of a reference: a significant name right after FROM or JOIN. */
  ghost predicate References(cs: Case, toks: seq<Token>, i: int) {
    && 0 <= i < |toks| && toks[i].kind.Name? && Previous(toks, i) >= 0
    && var before := toks[Previous(toks, i)];
       before.kind.Keyword? && (cs.upper(before.value) == "FROM" || cs.upper(before.value) == "JOIN")
  }

  /** A table is named by its value without the quotes around it, lower-cased. */
  lemma TableNameIs(cs: Case, t: Token) returns (left: string, name: string, right: string)
    ensures TableName(cs, t) == cs.lower(name) && t.value == left + name + right
    ensures forall i :: 0 <= i < |left| ==> left[i] in "\"`[]"
    ensures forall i :: 0 <= i < |right| ==> right[i] in "\"`[]"
    ensures name != "" ==> name[0] !in "\"`[]" && name[|name| - 1] !in "\"`[]"
  {
    name := Trim(t.value, IsQuote);
    TrimTight(t.value, IsQuote);
    left, right := TrimFacts(t.value, IsQuote);
    QuoteChars();
    assert forall i :: 0 <= i < |left| ==> IsQuote(left[i]);
    assert forall i :: 0 <= i < |right| ==> IsQuote(right[i]);
  }

  lemma QuoteChars()
    ensures forall c: char :: IsQuote(c) <==> c in "\"`[]"
  {
    var quotes := "\"`[]";
    assert quotes[0] == '"' && quotes[1] == '`' && quotes[2] == '[' && quotes[3] == ']';
  }

  /** `_referenced_tables`: the flag-driven scan yields exactly the referenced names. */
  method ReferencedTables(cs: Case, toks: seq<Token>) returns (tables: set<string>)
    ensures forall t :: t in tables <==> exists i :: References(cs, toks, i) && t == TableName(cs, toks[i])
  {
    hide TableName, IsSource, Previous, Skipped;
    tables := {};
    var expecting := false;
    NothingBefore(cs, toks);
    for i := 0 to |toks|
      invariant expecting <==> AfterSource(cs, toks, i)
      invariant Collected(cs, toks, i, tables)
    {
      var tok := toks[i];
      SourceStep(cs, toks, i);
      CollectStep(cs, toks, i, tables);
      if Skipped(tok) {
        continue;
      }
      if IsSource(cs, tok) {
        expecting := true;
        continue;
      }
      if expecting {
        if tok.kind.Name? {
          tables := tables + {TableName(cs, tok)};
        }
        expecting := false;
      }
    }
  }

  /** The last significant token before `i` is FROM or JOIN: what the flag stands for. */
  ghost predicate AfterSource(cs: Case, toks: seq<Token>, i: int)
    requires 0 <= i <= |toks|
  {
    Previous(toks, i) >= 0 && IsSource(cs, toks[Previous(toks, i)])
  }

  /** `tables` are the names referenced before position `i`. */
  ghost predicate Collected(cs: Case, toks: seq<Token>, i: int, tables: set<string>) {
    forall t :: t in tables <==> exists j :: j < i && References(cs, toks, j) && t == TableName(cs, toks[j])
  }

  lemma NothingBefore(cs: Case, toks: seq<Token>)
    ensures !AfterSource(cs, toks, 0) && Collected(cs, toks, 0, {})
  {
  }

  lemma SourceStep(cs: Case, toks: seq<Token>, i: nat)
    requires i < |toks|
    ensures AfterSource(cs, toks, i + 1) <==>
            if Skipped(toks[i]) then AfterSource(cs, toks, i) else IsSource(cs, toks[i])
    ensures References(cs, toks, i) <==> toks[i].kind.Name? && AfterSource(cs, toks, i)
    ensures toks[i].kind.Name? ==> !Skipped(toks[i]) && !IsSource(cs, toks[i])
  {
  }

  lemma CollectStep(cs: Case, toks: seq<Token>, i: nat, tables: set<string>)
    requires i < |toks| && Collected(cs, toks, i, tables)
    ensures Collected(cs, toks, i + 1, if References(cs, toks, i) then tables + {TableName(cs, toks[i])} else tables)
  {
    hide Previous, IsSource, TableName;
    var more := if References(cs, toks, i) then tables + {TableName(cs, toks[i])} else tables;
    forall t ensures t in more <==> exists j :: j < i + 1 && References(cs, toks, j) && t == TableName(cs, toks[j]) {
      if j :| j < i + 1 && References(cs, toks, j) && t == TableName(cs, toks[j]) {
        if j < i {
          assert t in tables;
        }
      }
    }
  }

  // ---- validation ----------------------------------------------------------------------

  datatype GuardError =
    | EmptyStatement
    | SeveralStatements
    | NotASelect
    | ForbiddenKeyword(word: string)
    | UnknownTables(names: set<string>)

  /** What the lexer makes of the text: its non-blank statements, each with its tokens. */
  datatype Statement = Statement(text: string, tokens: seq<Token>)

  ghost predicate LeadsWithSelect(cs: Case, toks: seq<Token>) {
    exists i :: 0 <= i < |toks| && Leads(toks, i)
      && (cs.upper(toks[i].value) == "SELECT" || cs.upper(toks[i].value) == "WITH")
  }

  ghost predicate NoneForbidden(cs: Case, toks: seq<Token>) {
    forall i :: 0 <= i < |toks| && (toks[i].kind.Keyword? || toks[i].kind.Dml? || toks[i].kind.Ddl?) ==>
      cs.upper(toks[i].value) !in FORBIDDEN
  }

  lemma NoneForbiddenIs(cs: Case, toks: seq<Token>)
    ensures NoneForbidden(cs, toks) <==> forall i :: 0 <= i < |toks| ==> !IsForbidden(cs, toks[i])
  {
  }

  /** The four conditions of a safe statement. */
  ghost predicate IsSafe(cs: Case, stmts: seq<Statement>, allowed: set<string>) {
    && |stmts| == 1
    && LeadsWithSelect(cs, stmts[0].tokens)
    && NoneForbidden(cs, stmts[0].tokens)
    && AllAllowed(cs, stmts[0].tokens, allowed)
  }

  /** The first of the four conditions to fail, and what it is reported with. */
  ghost predicate Fault(cs: Case, stmts: seq<Statement>, allowed: set<string>, e: GuardError) {
    match e
    case EmptyStatement => |stmts| == 0
    case SeveralStatements => |stmts| > 1
    case NotASelect => |stmts| == 1 && !LeadsWithSelect(cs, stmts[0].tokens)
    case ForbiddenKeyword(word) =>
      && |stmts| == 1 && LeadsWithSelect(cs, stmts[0].tokens)
      && ReportsForbidden(cs, stmts[0].tokens, word)
    case UnknownTables(names) =>
      && |stmts| == 1 && LeadsWithSelect(cs, stmts[0].tokens) && NoneForbidden(cs, stmts[0].tokens)
      && names != {} && AreUnknown(cs, stmts[0].tokens, allowed, names)
  }

  ghost predicate IsAllowed(cs: Case, allowed: set<string>, t: string) {
    exists a :: a in allowed && cs.lower(a) == t
  }

  /** `names` are the referenced tables that are not allowed. */
  ghost predicate AreUnknown(cs: Case, toks: seq<Token>, allowed: set<string>, names: set<string>) {
    forall t :: t in names <==>
      !IsAllowed(cs, allowed, t) && exists i :: References(cs, toks, i) && t == TableName(cs, toks[i])
  }

  /** The keyword reported first is one and the same. */
  ghost predicate ReportsForbidden(cs: Case, toks: seq<Token>, word: string) {
    exists i :: FirstForbidden(cs, toks, i) && word == cs.upper(toks[i].value)
  }

  lemma OneForbidden(cs: Case, toks: seq<Token>, word: string, other: string)
    requires ReportsForbidden(cs, toks, word)
    ensures !NoneForbidden(cs, toks)
    ensures ReportsForbidden(cs, toks, other) ==> word == other
  {
    NoneForbiddenIs(cs, toks);
    hide IsForbidden, NoneForbidden;
    var i :| FirstForbidden(cs, toks, i) && word == cs.upper(toks[i].value);
    if ReportsForbidden(cs, toks, other) {
      var j :| FirstForbidden(cs, toks, j) && other == cs.upper(toks[j].value);
      assert i == j;
    }
  }

  lemma OneUnknown(cs: Case, toks: seq<Token>, allowed: set<string>, names: set<string>, others: set<string>)
    requires AreUnknown(cs, toks, allowed, names)
    ensures names != {} ==> !AllAllowed(cs, toks, allowed)
    ensures AreUnknown(cs, toks, allowed, others) ==> names == others
  {
    hide Previous, TableName, IsAllowed;
    if names != {} {
      var t :| t in names;
      var i :| References(cs, toks, i) && t == TableName(cs, toks[i]);
      assert !IsAllowed(cs, allowed, TableName(cs, toks[i]));
    }
    if AreUnknown(cs, toks, allowed, others) {
      assert forall t :: t in names <==> t in others;
    }
  }

  /** A statement has one fault at most, and none exactly when it is safe. */
  lemma FaultUnique(cs: Case, stmts: seq<Statement>, allowed: set<string>, e: GuardError, f: GuardError)
    requires Fault(cs, stmts, allowed, e)
    ensures !IsSafe(cs, stmts, allowed)
    ensures Fault(cs, stmts, allowed, f) ==> e == f
  {
    hide LeadsWithSelect, NoneForbidden, ReportsForbidden, AreUnknown, AllAllowed;
    if e.ForbiddenKeyword? {
      OneForbidden(cs, stmts[0].tokens, e.word, if f.ForbiddenKeyword? then f.word else "");
    }
    if e.UnknownTables? {
      OneUnknown(cs, stmts[0].tokens, allowed, e.names, if f.UnknownTables? then f.names else {});
      if f.ForbiddenKeyword? && Fault(cs, stmts, allowed, f) {
        OneForbidden(cs, stmts[0].tokens, f.word, f.word);
      }
    }
  }

  function DropSemicolons(s: string): string {
    if s != "" && s[|s| - 1] == ';' then DropSemicolons(s[..|s| - 1]) else s
  }

  /** `kept` is `s` without its trailing semicolons. */
  predicate WithoutSemicolons(s: string, kept: string) {
    && kept <= s && (forall i :: |kept| <= i < |s| ==> s[i] == ';')
    && (kept == "" || kept[|kept| - 1] != ';')
  }

  lemma {:induction false} DropsSemicolons(s: string)
    ensures WithoutSemicolons(s, DropSemicolons(s))
  {
    if s != "" && s[|s| - 1] == ';' {
      DropsSemicolons(s[..|s| - 1]);
    }
  }

  /** `validate_select` accepts exactly the safe statements and returns their text,
      stripped and without trailing semicolons; otherwise it reports the fault. */
  method ValidateSelect(cs: Case, stmts: seq<Statement>, allowed: set<string>) returns (r: Result<string, GuardError>)
    ensures r.Ok? <==> IsSafe(cs, stmts, allowed)
    ensures r.Ok? ==> r.value == DropSemicolons(Strip(stmts[0].text))
    ensures r.Ok? ==> WithoutSemicolons(Strip(stmts[0].text), r.value)
    ensures r.Err? ==> Fault(cs, stmts, allowed, r.error)
  {
    hide Leads, IsForbidden, References, TableName, DropSemicolons, Strip, WithoutSemicolons, NoneForbidden;
    if |stmts| == 0 {
      return Err(EmptyStatement);
    }
    if |stmts| > 1 {
      return Err(SeveralStatements);
    }
    var toks := stmts[0].tokens;
    var first := FirstKeyword(cs, toks);
    NotLeading(cs, toks, first);
    if first != Some("SELECT") && first != Some("WITH") {
      return Err(NotASelect);
    }
    var bad := FindForbidden(cs, toks);
    NoneForbiddenIs(cs, toks);
    if bad.Some? {
      return Err(ForbiddenKeyword(bad.value));
    }
    var tables := ReferencedTables(cs, toks);
    var lowered := set a | a in allowed :: cs.lower(a);
    var unknown := set t | t in tables && t !in lowered;
    UnknownNames(cs, toks, allowed, tables, lowered, unknown);
    if unknown != {} {
      return Err(UnknownTables(unknown));
    }
    DropsSemicolons(Strip(stmts[0].text));
    r := Ok(DropSemicolons(Strip(stmts[0].text)));
  }

  /** The names left over are the unknown tables, none exactly when all are allowed. */
  lemma UnknownNames(cs: Case, toks: seq<Token>, allowed: set<string>, tables: set<string>, lowered: set<string>,
                     unknown: set<string>)
    requires forall t :: t in tables <==> exists i :: References(cs, toks, i) && t == TableName(cs, toks[i])
    requires lowered == set a | a in allowed :: cs.lower(a)
    requires unknown == set t | t in tables && t !in lowered
    ensures AreUnknown(cs, toks, allowed, unknown)
    ensures unknown == {} <==> AllAllowed(cs, toks, allowed)
  {
    hide Previous, IsSource, TableName;
    assert forall t :: t in lowered <==> IsAllowed(cs, allowed, t);
    if unknown == {} {
      forall i | References(cs, toks, i) ensures IsAllowed(cs, allowed, TableName(cs, toks[i])) {
        var t := TableName(cs, toks[i]);
        assert t in tables && t !in unknown;
      }
    } else {
      var t :| t in unknown;
      var i :| References(cs, toks, i) && t == TableName(cs, toks[i]);
      assert !IsAllowed(cs, allowed, TableName(cs, toks[i]));
    }
  }

  /** Every referenced table is one of the allowed ones, up to case. */
  ghost predicate AllAllowed(cs: Case, toks: seq<Token>, allowed: set<string>) {
    forall i :: References(cs, toks, i) ==> IsAllowed(cs, allowed, TableName(cs, toks[i]))
  }

  /** At most one token leads, so a different first keyword rules the statement out. */
  lemma NotLeading(cs: Case, toks: seq<Token>, first: Option<string>)
    requires first.None? ==> forall i :: 0 <= i < |toks| ==> Skipped(toks[i]) || OpensParenthesis(toks[i])
    requires first.Some? ==> exists i :: 0 <= i < |toks| && Leads(toks, i) && first.value == cs.upper(toks[i].value)
    ensures forall i :: 0 <= i < |toks| && Leads(toks, i) ==> first == Some(cs.upper(toks[i].value))
  {
    forall i | 0 <= i < |toks| && Leads(toks, i) ensures first == Some(cs.upper(toks[i].value)) {
      if first.Some? {
        var j :| 0 <= j < |toks| && Leads(toks, j) && first.value == cs.upper(toks[j].value);
        assert i == j;
      }
    }
  }

  // ---- the agent --------------------------------------------------------------------------

  datatype AgentStep =
    | Drafted(attempt: nat, sql: string)
    | Rejected(sql: string, error: string)
    | Ran(sql: string, rows: nat)

  datatype ToolResult = ToolResult(sql: string, rows: nat)

  datatype AgentRun = Answered(sql: string, rows: nat) | GaveUp(error: Option<string>)

  /** The model and the database as the agent meets them. */
  datatype World = World(
    /** SQL drafted at an attempt, given the error fed back. */
    draft: (nat, Option<string>) -> string,
    /** `sqlparse` on a draft. */
    lex: string -> seq<Statement>,
    /** `ensure_limit` on a validated statement. */
    limited: string -> string,
    /** Running a statement: the number of rows or the error text. */
    execute: string -> Result<nat, string>,
    /** Error text of a guard rejection. */
    message: GuardError -> string)

  /** `SqlQueryTool.run`: guard, cap, execute. */
  method RunTool(cs: Case, w: World, allowed: set<string>, sql: string) returns (r: Result<ToolResult, string>)
    ensures r.Ok? ==> Passed(cs, w, allowed, sql, r.value)
    ensures r.Err? ==> Failed(cs, w, allowed, sql, r.error)
    ensures r.Ok? <==> IsSafe(cs, w.lex(sql), allowed) && w.execute(Capped(w, sql)).Ok?
  {
    hide Fault, LeadsWithSelect, NoneForbidden, AllAllowed;
    var safe := ValidateSelect(cs, w.lex(sql), allowed);
    if safe.Err? {
      return Err(w.message(safe.error));
    }
    var capped := w.limited(safe.value);
    match w.execute(capped)
    case Ok(n) => return Ok(ToolResult(capped, n));
    case Err(e) => return Err(e);
  }

  /** The text that is run for a draft the guard accepts. */
  function Capped(w: World, sql: string): string
    requires |w.lex(sql)| == 1
  {
    w.limited(DropSemicolons(Strip(w.lex(sql)[0].text)))
  }

  /** The reported SQL is the capped text of a draft that the guard accepted, and it ran. */
  ghost predicate Passed(cs: Case, w: World, allowed: set<string>, sql: string, r: ToolResult) {
    && |w.lex(sql)| == 1 && IsSafe(cs, w.lex(sql), allowed)
    && r.sql == Capped(w, sql)
    && w.execute(r.sql) == Ok(r.rows)
  }

  /** The draft was rejected by the guard with this message, or failed with it when run. */
  ghost predicate Failed(cs: Case, w: World, allowed: set<string>, sql: string, error: string) {
    || (exists e :: Fault(cs, w.lex(sql), allowed, e) && error == w.message(e))
    || (|w.lex(sql)| == 1 && IsSafe(cs, w.lex(sql), allowed) && w.execute(Capped(w, sql)) == Err(error))
  }

  /** A draft fails in one way only, and not if it passes. */
  lemma OneOutcome(cs: Case, w: World, allowed: set<string>, sql: string, error: string)
    requires Failed(cs, w, allowed, sql, error)
    ensures forall r :: !Passed(cs, w, allowed, sql, r)
    ensures forall other :: Failed(cs, w, allowed, sql, other) ==> other == error
  {
    hide IsSafe, Fault;
    if e :| Fault(cs, w.lex(sql), allowed, e) && error == w.message(e) {
      FaultUnique(cs, w.lex(sql), allowed, e, e);
    }
    forall other | Failed(cs, w, allowed, sql, other) ensures other == error {
      if e, f :| Fault(cs, w.lex(sql), allowed, e) && error == w.message(e)
                 && Fault(cs, w.lex(sql), allowed, f) && other == w.message(f) {
        FaultUnique(cs, w.lex(sql), allowed, e, f);
      } else if f :| Fault(cs, w.lex(sql), allowed, f) && other == w.message(f) {
        FaultUnique(cs, w.lex(sql), allowed, f, f);
      }
    }
  }

  /** The trace in pairs: attempt `n` drafts from the error before it and then either
      failed, leaving its own error, or ran. */
  ghost predicate TraceOk(cs: Case, w: World, allowed: set<string>, steps: seq<AgentStep>) {
    && |steps| % 2 == 0
    && forall n :: 0 <= n < |steps| / 2 ==> AttemptOk(cs, w, allowed, steps, n)
  }

  ghost predicate AttemptOk(cs: Case, w: World, allowed: set<string>, steps: seq<AgentStep>, n: nat)
    requires 2 * n + 1 < |steps|
  {
    && steps[2 * n] == Drafted(n + 1, w.draft(n + 1, ErrorBefore(steps, n)))
    && Outcome(cs, w, allowed, steps[2 * n].sql, steps[2 * n + 1])
    && (n + 1 < |steps| / 2 ==> steps[2 * n + 1].Rejected?)
  }

  /** The step recorded after a draft: what the tool did with it. */
  ghost predicate Outcome(cs: Case, w: World, allowed: set<string>, sql: string, step: AgentStep) {
    match step
    case Drafted(_, _) => false
    case Rejected(s, e) => s == sql && Failed(cs, w, allowed, sql, e)
    case Ran(s, rows) => Passed(cs, w, allowed, sql, ToolResult(s, rows))
  }

  /** The error of the attempt before, none for the first. */
  ghost function ErrorBefore(steps: seq<AgentStep>, n: nat): Option<string>
    requires 2 * n <= |steps|
  {
    if n > 0 && steps[2 * n - 1].Rejected? then Some(steps[2 * n - 1].error) else None
  }

  method RunAgent(cs: Case, w: World, allowed: set<string>, maxAttempts: int)
    returns (run: AgentRun, steps: seq<AgentStep>)
    ensures TraceOk(cs, w, allowed, steps)
    ensures |steps| <= if maxAttempts > 0 then 2 * maxAttempts else 0
    ensures run.GaveUp? ==>
              && |steps| == (if maxAttempts > 0 then 2 * maxAttempts else 0)
              && run.error == ErrorBefore(steps, |steps| / 2)
              && forall n :: 0 <= n < |steps| / 2 ==> steps[2 * n + 1].Rejected?
    ensures run.Answered? ==>
              && steps != [] && steps[|steps| - 1] == Ran(run.sql, run.rows)
              && steps[|steps| - 2].Drafted?
              && Passed(cs, w, allowed, steps[|steps| - 2].sql, ToolResult(run.sql, run.rows))
  {
    hide Outcome;
    steps := [];
    var error: Option<string> := None;
    for n := 0 to if maxAttempts > 0 then maxAttempts else 0
      invariant |steps| == 2 * n && TraceOk(cs, w, allowed, steps)
      invariant error == ErrorBefore(steps, n)
      invariant forall m :: 0 <= m < n ==> steps[2 * m + 1].Rejected?
    {
      var sql := w.draft(n + 1, error);
      var result := RunTool(cs, w, allowed, sql);
      ghost var before := steps;
      match result {
        case Err(e) =>
          RejectedOutcome(cs, w, allowed, sql, e);
          TraceGrows(cs, w, allowed, before, sql, Rejected(sql, e));
          steps := steps + [Drafted(n + 1, sql), Rejected(sql, e)];
          error := Some(e);
        case Ok(t) =>
          RanOutcome(cs, w, allowed, sql, t);
          TraceGrows(cs, w, allowed, before, sql, Ran(t.sql, t.rows));
          steps := steps + [Drafted(n + 1, sql), Ran(t.sql, t.rows)];
          return Answered(t.sql, t.rows), steps;
      }
    }
    run := GaveUp(error);
  }

  lemma RejectedOutcome(cs: Case, w: World, allowed: set<string>, sql: string, e: string)
    requires Failed(cs, w, allowed, sql, e)
    ensures Outcome(cs, w, allowed, sql, Rejected(sql, e))
  {
  }

  lemma RanOutcome(cs: Case, w: World, allowed: set<string>, sql: string, t: ToolResult)
    requires Passed(cs, w, allowed, sql, t)
    ensures Outcome(cs, w, allowed, sql, Ran(t.sql, t.rows))
  {
  }

  lemma TraceGrows(cs: Case, w: World, allowed: set<string>, steps: seq<AgentStep>, sql: string, last: AgentStep)
    requires TraceOk(cs, w, allowed, steps) && Outcome(cs, w, allowed, sql, last)
    requires forall m :: 0 <= m < |steps| / 2 ==> steps[2 * m + 1].Rejected?
    requires sql == w.draft(|steps| / 2 + 1, ErrorBefore(steps, |steps| / 2))
    ensures TraceOk(cs, w, allowed, steps + [Drafted(|steps| / 2 + 1, sql), last])
  {
    hide Outcome;
    var all := steps + [Drafted(|steps| / 2 + 1, sql), last];
    forall n | 0 <= n < |all| / 2 ensures AttemptOk(cs, w, allowed, all, n) {
      assert ErrorBefore(all, n) == ErrorBefore(steps, n);
      if n < |steps| / 2 {
        assert AttemptOk(cs, w, allowed, steps, n);
        assert all[2 * n] == steps[2 * n] && all[2 * n + 1] == steps[2 * n + 1];
      }
    }
  }

  lemma OutcomeUnique(cs: Case, w: World, allowed: set<string>, sql: string, a: AgentStep, b: AgentStep)
    requires Outcome(cs, w, allowed, sql, a) && Outcome(cs, w, allowed, sql, b)
    ensures a == b
  {
    hide Passed, Failed;
    if a.Rejected? {
      OneOutcome(cs, w, allowed, sql, a.error);
    } else if b.Rejected? {
      OneOutcome(cs, w, allowed, sql, b.error);
    } else {
      OneResult(cs, w, allowed, sql, ToolResult(a.sql, a.rows), ToolResult(b.sql, b.rows));
    }
  }

  lemma OneResult(cs: Case, w: World, allowed: set<string>, sql: string, a: ToolResult, b: ToolResult)
    requires Passed(cs, w, allowed, sql, a) && Passed(cs, w, allowed, sql, b)
    ensures a == b
  {
  }

  /** The trace is determined by the model, the guard and the database: two traces agree
      as far as both go. */
  lemma {:induction false} TraceUnique(cs: Case, w: World, allowed: set<string>, s: seq<AgentStep>, t: seq<AgentStep>,
                                       n: nat)
    requires TraceOk(cs, w, allowed, s) && TraceOk(cs, w, allowed, t)
    requires 2 * n <= |s| && 2 * n <= |t|
    ensures s[..2 * n] == t[..2 * n]
  {
    hide Outcome;
    if n > 0 {
      TraceUnique(cs, w, allowed, s, t, n - 1);
      assert AttemptOk(cs, w, allowed, s, n - 1) && AttemptOk(cs, w, allowed, t, n - 1);
      if n > 1 {
        assert s[2 * n - 3] == s[..2 * (n - 1)][2 * n - 3] == t[2 * n - 3];
      }
      assert s[2 * n - 2] == t[2 * n - 2];
      OutcomeUnique(cs, w, allowed, s[2 * n - 2].sql, s[2 * n - 1], t[2 * n - 1]);
      assert s[..2 * n] == s[..2 * (n - 1)] + [s[2 * n - 2], s[2 * n - 1]];
      assert t[..2 * n] == t[..2 * (n - 1)] + [t[2 * n - 2], t[2 * n - 1]];
    }
  }
}
