/**
  The command loop: one input line is routed either to the meta-command
  handler (lines starting with '.') or through the parser to the
  executor, and the outcome is reported. `Step` is one turn of the loop,
  `Session` the loop itself; `StepSpec` and `Run` state the same on the
  table's rows alone.
*/
module Repl {
  import opened Common
  import opened Layout
  import opened RowCodec
  import opened PageStore
  import opened Statements

  /** The size of the input buffer, terminating NUL included. */
  const INPUT_BUFFER_SIZE: nat := 50
  const DOT: byte := 46
  /** The bytes of ".exit". */
  const EXIT_COMMAND: seq<byte> := [46, 101, 120, 105, 116]

  datatype MetaCommandResult = MetaCommandExit | MetaCommandUnrecognizedCommand

  /** What one turn of the loop reports. */
  datatype Outcome =
    | Fatal                       // the read returned no bytes: the process exits with status 1
    | Terminate                   // ".exit": the process exits with status 0
    | UnrecognizedMeta
    | SyntaxError
    | UnrecognizedStatement
    | Executed(printed: seq<Row>) // the rows a select prints, then "Executed."
    | TableFull

  /** An outcome that ends the session. */
  predicate Stops(o: Outcome)
  {
    o == Terminate || o == Fatal
  }

  /**
    `doMetaCommand`: the session ends exactly when the buffer holds the
    C string ".exit", that is ".exit" followed by the end of the line or a
    NUL; every other meta command is unrecognized.
  */
  function DoMetaCommand(line: seq<byte>): (r: MetaCommandResult)
    ensures r == MetaCommandExit <==>
              EXIT_COMMAND <= line && (|line| == |EXIT_COMMAND| || line[|EXIT_COMMAND|] == NUL)
  {
    ExitText(line);
    if CString(line) == EXIT_COMMAND then MetaCommandExit else MetaCommandUnrecognizedCommand
  }

  lemma {:induction false} ExitText(line: seq<byte>)
    ensures CString(line) == EXIT_COMMAND <==>
              EXIT_COMMAND <= line && (|line| == |EXIT_COMMAND| || line[|EXIT_COMMAND|] == NUL)
  {
    var s := CString(line);
    var n := |EXIT_COMMAND|;
    if EXIT_COMMAND <= line && (|line| == n || line[n] == NUL) {
      assert |s| == n;
    }
  }

  /**
    What executing `stmt` against a table holding `rows` reports, prints
    and leaves: an insert is `InsertSpec`, a select prints every row and
    changes nothing.
  */
  function ExecuteSpec(rows: seq<Row>, stmt: Statement): (ExecuteResult, seq<Row>, seq<Row>)
  {
    match stmt
    case Insert(r) =>
      var (res, rows') := InsertSpec(rows, r);
      (res, [], rows')
    case Select => (ExecuteSuccess, rows, rows)
  }

  /** `executeStatement`: dispatch on the statement type. */
  method ExecuteStatement(table: Table, stmt: Statement) returns (res: ExecuteResult, printed: seq<Row>)
    requires table.Valid()
    modifies table.Repr
    ensures table.Valid() && fresh(table.Repr - old(table.Repr))
    ensures (res, printed, table.Rows) == ExecuteSpec(old(table.Rows), stmt)
  {
    match stmt
    case Insert(r) =>
      res := table.ExecuteInsert(r);
      printed := [];
    case Select =>
      printed := table.ExecuteSelect();
      res := ExecuteSuccess;
  }

  /** One turn of the loop on the rows of the table: the outcome reported and the rows afterwards. */
  function StepSpec(rows: seq<Row>, line: seq<byte>): (Outcome, seq<Row>)
  {
    if |line| == 0 then (Fatal, rows)
    else if line[0] == DOT then
      match DoMetaCommand(line)
      case MetaCommandExit => (Terminate, rows)
      case MetaCommandUnrecognizedCommand => (UnrecognizedMeta, rows)
    else
      match Prepare(line)
      case PrepareSyntaxError => (SyntaxError, rows)
      case PrepareUnrecognizedStatement => (UnrecognizedStatement, rows)
      case PrepareSuccess(stmt) =>
        var (res, printed, rows') := ExecuteSpec(rows, stmt);
        (if res == ExecuteSuccess then Executed(printed) else TableFull, rows')
  }

  /**
    The rows only ever grow at the end, by one row at most, only through a
    successful insert and never past capacity; a meta-command line, and a
    line that ends the session, change nothing.
  */
  lemma StepShape(rows: seq<Row>, line: seq<byte>)
    ensures var (o, rows') := StepSpec(rows, line);
            && (rows' == rows || (|rows| < TABLE_MAX_ROWS && o == Executed([]) && rows' == rows + [rows'[|rows|]]))
            && (|line| > 0 && line[0] == DOT ==> rows' == rows && (o == Terminate || o == UnrecognizedMeta))
            && (Stops(o) ==> rows' == rows)
  {
  }

  /**
    One turn of the loop (`main`'s loop body after the read): route the
    line, run it, and report the outcome.
  */
  method Step(table: Table, line: seq<byte>) returns (outcome: Outcome)
    requires table.Valid()
    requires |line| < INPUT_BUFFER_SIZE
    modifies table.Repr
    ensures table.Valid() && fresh(table.Repr - old(table.Repr))
    ensures (outcome, table.Rows) == StepSpec(old(table.Rows), line)
  {
    if |line| == 0 {
      return Fatal;
    }
    if line[0] == DOT {
      match DoMetaCommand(line)
      case MetaCommandExit =>
        return Terminate;
      case MetaCommandUnrecognizedCommand =>
        return UnrecognizedMeta;
    }
    match Prepare(line)
    case PrepareSyntaxError =>
      outcome := SyntaxError;
    case PrepareUnrecognizedStatement =>
      outcome := UnrecognizedStatement;
    case PrepareSuccess(stmt) =>
      var res, printed := ExecuteStatement(table, stmt);
      match res
      case ExecuteSuccess =>
        outcome := Executed(printed);
      case ExecuteTableFull =>
        outcome := TableFull;
  }

  /**
    A session over the lines `lines`: the outcomes reported, up to and
    including the one that ends it, and the rows at the end.
  */
  function Run(rows: seq<Row>, lines: seq<seq<byte>>): (seq<Outcome>, seq<Row>)
    decreases |lines|
  {
    if lines == [] then ([], rows)
    else
      var (o, rows') := StepSpec(rows, lines[0]);
      if Stops(o) then ([o], rows')
      else
        var (os, final) := Run(rows', lines[1..]);
        ([o] + os, final)
  }

  /** `main`'s loop: run the lines in turn until one ends the session. */
  method Session(table: Table, lines: seq<seq<byte>>) returns (outcomes: seq<Outcome>)
    requires table.Valid()
    requires forall i :: 0 <= i < |lines| ==> |lines[i]| < INPUT_BUFFER_SIZE
    modifies table.Repr
    ensures table.Valid() && fresh(table.Repr - old(table.Repr))
    ensures (outcomes, table.Rows) == Run(old(table.Rows), lines)
  {
    outcomes := [];
    var i := 0;
    var stopped := false;
    assert lines[i..] == lines;
    assert Run(table.Rows, lines[i..]).0 == outcomes + Run(table.Rows, lines[i..]).0;
    while i < |lines| && !stopped
      invariant 0 <= i <= |lines|
      invariant table.Valid() && fresh(table.Repr - old(table.Repr))
      invariant !stopped ==>
                  Run(old(table.Rows), lines)
                  == (outcomes + Run(table.Rows, lines[i..]).0, Run(table.Rows, lines[i..]).1)
      invariant stopped ==> (outcomes, table.Rows) == Run(old(table.Rows), lines)
    {
      ghost var before := table.Rows;
      var o := Step(table, lines[i]);
      assert lines[i..][0] == lines[i] && lines[i..][1..] == lines[i + 1..];
      ghost var later := Run(table.Rows, lines[i + 1..]);
      if Stops(o) {
        assert Run(before, lines[i..]) == ([o], table.Rows);
      } else {
        assert Run(before, lines[i..]) == ([o] + later.0, later.1);
        assert outcomes + ([o] + later.0) == (outcomes + [o]) + later.0;
      }
      outcomes := outcomes + [o];
      stopped := Stops(o);
      i := i + 1;
    }
    if !stopped {
      assert lines[i..] == [];
      assert outcomes + [] == outcomes;
    }
  }

  /** A session never takes the table past its capacity, and never loses a row. */
  lemma {:induction false} RunKeepsCapacity(rows: seq<Row>, lines: seq<seq<byte>>)
    requires |rows| <= TABLE_MAX_ROWS
    ensures |Run(rows, lines).1| <= TABLE_MAX_ROWS
    ensures |rows| <= |Run(rows, lines).1| && Run(rows, lines).1[..|rows|] == rows
    decreases |lines|
  {
    if lines != [] {
      var step := StepSpec(rows, lines[0]);
      StepShape(rows, lines[0]);
      if !Stops(step.0) {
        RunKeepsCapacity(step.1, lines[1..]);
        var final := Run(step.1, lines[1..]).1;
        assert Run(rows, lines).1 == final;
        assert final[..|rows|] == final[..|step.1|][..|rows|];
      }
    }
  }

  /**
    A well-formed insert line appends exactly its row while the table has
    room, and is reported as a full table, changing nothing, once it has not.
  */
  lemma StepInsertLine(rows: seq<Row>, id: uint32, username: seq<byte>, email: seq<byte>)
    requires IsToken(username, USERNAME_SIZE) && IsToken(email, EMAIL_SIZE)
    ensures var row := Row(id, Pad(username, USERNAME_SIZE), Pad(email, EMAIL_SIZE));
            StepSpec(rows, InsertLine(id, username, email))
            == if |rows| < TABLE_MAX_ROWS then (Executed([]), rows + [row]) else (TableFull, rows)
  {
    var line := InsertLine(id, username, email);
    assert line[0] == INSERT_KEYWORD[0];
    PrepareInsertLine(id, username, email);
  }

  /** "select" prints every row, in insertion order, and changes nothing. */
  lemma StepSelect(rows: seq<Row>)
    ensures StepSpec(rows, SELECT_KEYWORD) == (Executed(rows), rows)
  {
    CStringOfText(SELECT_KEYWORD);
  }

  /** Once the table is full, no line changes its rows. */
  lemma {:induction false} FullTableIsFrozen(rows: seq<Row>, lines: seq<seq<byte>>)
    requires |rows| >= TABLE_MAX_ROWS
    ensures Run(rows, lines).1 == rows
    ensures forall i :: 0 <= i < |Run(rows, lines).0| ==> !Run(rows, lines).0[i].Executed? || Run(rows, lines).0[i].printed == rows || Run(rows, lines).0[i].printed == []
    decreases |lines|
  {
    if lines != [] {
      StepShape(rows, lines[0]);
      var (o, rows') := StepSpec(rows, lines[0]);
      assert rows' == rows;
      if !Stops(o) {
        FullTableIsFrozen(rows, lines[1..]);
        assert o.Executed? ==> o.printed == rows || o.printed == [] by {
          if o.Executed? && o.printed != [] {
            StepPrints(rows, lines[0]);
          }
        }
      }
    }
  }

  /** A turn that prints rows prints all of them and changes nothing. */
  lemma StepPrints(rows: seq<Row>, line: seq<byte>)
    requires StepSpec(rows, line).0.Executed? && StepSpec(rows, line).0.printed != []
    ensures StepSpec(rows, line) == (Executed(rows), rows)
  {
  }

  /**
    Inserting a row and then selecting prints the earlier rows followed by
    the new one, and the session reports both turns.
  */
  lemma InsertThenSelect(rows: seq<Row>, id: uint32, username: seq<byte>, email: seq<byte>)
    requires IsToken(username, USERNAME_SIZE) && IsToken(email, EMAIL_SIZE)
    requires |rows| < TABLE_MAX_ROWS
    ensures var row := Row(id, Pad(username, USERNAME_SIZE), Pad(email, EMAIL_SIZE));
            Run(rows, [InsertLine(id, username, email), SELECT_KEYWORD])
            == ([Executed([]), Executed(rows + [row])], rows + [row])
  {
    var row := Row(id, Pad(username, USERNAME_SIZE), Pad(email, EMAIL_SIZE));
    var insert := InsertLine(id, username, email);
    StepInsertLine(rows, id, username, email);
    StepSelect(rows + [row]);
    RunTwo(rows, insert, SELECT_KEYWORD);
  }

  /** A session of two lines, neither of which ends it, reports both turns. */
  lemma RunTwo(rows: seq<Row>, first: seq<byte>, second: seq<byte>)
    requires !Stops(StepSpec(rows, first).0)
    requires !Stops(StepSpec(StepSpec(rows, first).1, second).0)
    ensures Run(rows, [first, second])
            == ([StepSpec(rows, first).0, StepSpec(StepSpec(rows, first).1, second).0],
                StepSpec(StepSpec(rows, first).1, second).1)
  {
    var lines := [first, second];
    assert lines[0] == first && lines[1..] == [second];
    var tail := lines[1..];
    assert tail[0] == second && tail[1..] == [];
    var (o1, r1) := StepSpec(rows, first);
    var (o2, r2) := StepSpec(r1, second);
    assert Run(r2, tail[1..]) == ([], r2);
    assert Run(r1, tail) == ([o2] + [], r2);
    assert Run(rows, lines) == ([o1] + Run(r1, tail).0, Run(r1, tail).1);
    assert [o1] + ([o2] + []) == [o1, o2];
  }
}
