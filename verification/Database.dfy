/**
 * The database as the migration runner sees it: the committed transactions, the
 * open one, and the ledger of applied migrations that the transactions write.
 */
module Database {
  import opened Text
  import opened Scanner
  import opened SqlStatements

  datatype Row = Row(name: string, checksum: string)

  /** What one transaction does: the statements it carried out and the ledger rows it wrote. */
  datatype Transaction = Transaction(stmts: seq<string>, rows: seq<Row>)

  const NOTHING := Transaction([], [])

  /** `Implicit` is the transaction that the database opens by itself for the statements of one query text. */
  datatype Open = NoTxn | InBlock(txn: Transaction) | Implicit(txn: Transaction)

  datatype Session = Session(commits: seq<Transaction>, open: Open)

  function RowsOf(commits: seq<Transaction>): (rows: seq<Row>) {
    if commits == [] then [] else RowsOf(commits[..|commits| - 1]) + commits[|commits| - 1].rows
  }

  /** The ledger: the rows that were there before, then those that committed transactions wrote. */
  function LedgerRows(base: seq<Row>, commits: seq<Transaction>): (rows: seq<Row>) {
    base + RowsOf(commits)
  }

  predicate HasRow(rows: seq<Row>, name: string) {
    exists k :: 0 <= k < |rows| && rows[k].name == name
  }

  // ----- what a statement asks for

  /**
   * Which statement texts control the transaction although the scanner takes them for
   * work: PostgreSQL has more spellings (`END`, `ABORT`, `COMMIT WORK`) than the pattern.
   */
  type Reading = string -> Option<Keyword>

  datatype Act = Does(text: string) | Controls(keyword: Keyword)

  function ActOf(means: Reading, st: Stmt): (a: Act) {
    match st
    case Txn(k, _) => Controls(k)
    case Work(text) => (match means(text) case Some(k) => Controls(k) case None => Does(text))
  }

  function Acts(means: Reading, ss: seq<Stmt>): (acts: seq<Act>)
    ensures |acts| == |ss|
  {
    seq(|ss|, i requires 0 <= i < |ss| => ActOf(means, ss[i]))
  }

  /** What the database is asked to do by one query text. */
  function Asks(means: Reading, sql: string): (acts: seq<Act>) {
    Acts(means, Statements(sql))
  }

  /** The texts of the statements that do work. */
  function WorkTexts(acts: seq<Act>): (texts: seq<string>) {
    if acts == [] then []
    else
      var n := |acts| - 1;
      WorkTexts(acts[..n]) + (if acts[n].Does? then [acts[n].text] else [])
  }

  // ----- carrying statements out

  /** A transaction that did nothing leaves no trace. */
  function Committed(commits: seq<Transaction>, t: Transaction): (r: seq<Transaction>) {
    if t == NOTHING then commits else commits + [t]
  }

  predicate Opens(k: Keyword) {
    k == Begin || k == StartTransaction
  }

  /**
   * `BEGIN` in a block, and `COMMIT` or `ROLLBACK` outside one, are warnings; `BEGIN` takes an
   * implicit transaction over.
   */
  function ExecTxn(s: Session, k: Keyword): (r: Session) {
    match s.open
    case NoTxn => if Opens(k) then s.(open := InBlock(NOTHING)) else s
    case InBlock(t) =>
      if Opens(k) then s else if k == Rollback then s.(open := NoTxn) else Session(Committed(s.commits, t), NoTxn)
    case Implicit(t) =>
      if Opens(k) then s.(open := InBlock(t))
      else if k == Rollback then s.(open := NoTxn)
      else Session(Committed(s.commits, t), NoTxn)
  }

  function AddText(t: Transaction, text: string): (r: Transaction) {
    t.(stmts := t.stmts + [text])
  }

  /** One statement of a query text. */
  function ExecAct(s: Session, a: Act): (r: Session) {
    match a
    case Controls(k) => ExecTxn(s, k)
    case Does(text) =>
      match s.open
      case NoTxn => s.(open := Implicit(AddText(NOTHING, text)))
      case InBlock(t) => s.(open := InBlock(AddText(t, text)))
      case Implicit(t) => s.(open := Implicit(AddText(t, text)))
  }

  /** The end of a query text commits its implicit transaction. */
  function EndQuery(s: Session): (r: Session) {
    if s.open.Implicit? then Session(Committed(s.commits, s.open.txn), NoTxn) else s
  }

  /** A failing statement undoes it. */
  function FailQuery(s: Session): (r: Session) {
    if s.open.Implicit? then s.(open := NoTxn) else s
  }

  /** Statement `j` of a query text, and the end of the text behind the last one. */
  function ExecIn(s: Session, acts: seq<Act>, j: nat): (r: Session)
    requires j < |acts|
  {
    if j + 1 == |acts| then EndQuery(ExecAct(s, acts[j])) else ExecAct(s, acts[j])
  }

  /** The insert is a query text of its own. */
  function InsertRow(s: Session, row: Row): (r: Session) {
    match s.open
    case NoTxn => s.(commits := s.commits + [Transaction([], [row])])
    case InBlock(t) => s.(open := InBlock(t.(rows := t.rows + [row])))
    case Implicit(t) => Session(s.commits + [t.(rows := t.rows + [row])], NoTxn)
  }

  /** The primary key of the ledger refuses a second row for a name. */
  predicate Collides(base: seq<Row>, s: Session, name: string) {
    || HasRow(LedgerRows(base, s.commits), name)
    || (!s.open.NoTxn? && HasRow(s.open.txn.rows, name))
  }

  // ----- facts about ledgers

  lemma {:induction false} RowsOfAppend(commits: seq<Transaction>, t: Transaction)
    ensures RowsOf(commits + [t]) == RowsOf(commits) + t.rows
  {
    assert (commits + [t])[..|commits|] == commits;
  }

  lemma {:induction false} HasRowAppend(rows: seq<Row>, more: seq<Row>, name: string)
    ensures HasRow(rows + more, name) <==> HasRow(rows, name) || HasRow(more, name)
  {
    if k :| 0 <= k < |rows| && rows[k].name == name {
      assert (rows + more)[k].name == name;
    }
    if k :| 0 <= k < |more| && more[k].name == name {
      assert (rows + more)[|rows| + k].name == name;
    }
  }

  lemma {:induction false} WorkTextsNext(acts: seq<Act>, j: nat)
    requires j < |acts|
    ensures WorkTexts(acts[..j + 1]) == WorkTexts(acts[..j]) + (if acts[j].Does? then [acts[j].text] else [])
  {
    assert acts[..j + 1][..j] == acts[..j];
  }
}
