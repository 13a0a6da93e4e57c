/**
  Concrete sessions: what single lines and short sequences of lines do.
  Each line is written as its bytes, with the text it spells beside it.
*/
module Scenarios {
  import opened Common
  import opened Layout
  import opened RowCodec
  import opened Statements
  import opened Repl

  const EXIT_NOW: seq<byte> := [46, 101, 120, 105, 116, 32, 110, 111, 119]    // ".exit now"
  const TABLES: seq<byte> := [46, 116, 97, 98, 108, 101, 115]                 // ".tables"
  const FOO: seq<byte> := [102, 111, 111]                                     // "foo"
  const SELECT_X: seq<byte> := [115, 101, 108, 101, 99, 116, 32, 120]         // "select x"
  const BOB: seq<byte> := [98, 111, 98]                                       // "bob"
  const BOB_MAIL: seq<byte> := [98, 111, 98, 64, 120, 46, 99, 111, 109]       // "bob@x.com"
  const ONE: seq<byte> := [49]                                                // "1"
  const ABC_BOB_MAIL: seq<byte> := [97, 98, 99, 32] + BOB + [32] + BOB_MAIL   // "abc bob bob@x.com"
  /** "insert 1 bob" */
  const INSERT_NO_MAIL: seq<byte> := INSERT_KEYWORD + [SPACE] + ONE + [SPACE] + BOB
  /** "insert abc bob bob@x.com" */
  const INSERT_WORD_ID: seq<byte> := INSERT_KEYWORD + [SPACE] + ABC_BOB_MAIL
  /** "insert 1 bob bob@x.com" */
  const INSERT_BOB: seq<byte> := INSERT_KEYWORD + [SPACE] + ONE + [SPACE] + BOB + [SPACE] + BOB_MAIL

  /** An empty read ends the process with an error, whatever lines would follow. */
  lemma EmptyLineIsFatal(rows: seq<Row>)
    ensures Run(rows, [[], SELECT_KEYWORD]) == ([Fatal], rows)
  {
    var lines: seq<seq<byte>> := [[], SELECT_KEYWORD];
    assert lines[0] == [];
  }

  /** ".exit" ends the session and nothing after it runs. */
  lemma ExitEndsSession(rows: seq<Row>)
    ensures Run(rows, [EXIT_COMMAND, SELECT_KEYWORD]) == ([Terminate], rows)
  {
    var lines: seq<seq<byte>> := [EXIT_COMMAND, SELECT_KEYWORD];
    assert lines[0] == EXIT_COMMAND;
    assert DoMetaCommand(EXIT_COMMAND) == MetaCommandExit;
  }

  /** ".exit now" is not ".exit": it is an unrecognized meta command. */
  lemma ExitWithArgument(rows: seq<Row>)
    ensures StepSpec(rows, EXIT_NOW) == (UnrecognizedMeta, rows)
  {
    assert EXIT_NOW[5] != NUL;
    assert DoMetaCommand(EXIT_NOW) == MetaCommandUnrecognizedCommand;
  }

  /** ".tables" is an unrecognized meta command. */
  lemma UnknownMetaCommand(rows: seq<Row>)
    ensures StepSpec(rows, TABLES) == (UnrecognizedMeta, rows)
  {
    assert TABLES[1] != EXIT_COMMAND[1];
    assert DoMetaCommand(TABLES) == MetaCommandUnrecognizedCommand;
  }

  /** "foo" is an unrecognized statement. */
  lemma UnknownKeyword(rows: seq<Row>)
    ensures StepSpec(rows, FOO) == (UnrecognizedStatement, rows)
  {
    CStringOfText(FOO);
    assert FOO[0] != INSERT_KEYWORD[0] && FOO[0] != SELECT_KEYWORD[0];
    assert Prepare(FOO) == PrepareUnrecognizedStatement;
  }

  /** "select x" is not "select": it is an unrecognized statement. */
  lemma SelectWithArgument(rows: seq<Row>)
    ensures StepSpec(rows, SELECT_X) == (UnrecognizedStatement, rows)
  {
    CStringOfText(SELECT_X);
    assert SELECT_X[0] != INSERT_KEYWORD[0] && |SELECT_X| != |SELECT_KEYWORD|;
    assert Prepare(SELECT_X) == PrepareUnrecognizedStatement;
  }

  /** "insert 1 bob", with the email missing, is a syntax error. */
  lemma InsertWithoutEmail(rows: seq<Row>)
    ensures StepSpec(rows, INSERT_NO_MAIL) == (SyntaxError, rows)
  {
    assert IsToken(BOB, USERNAME_SIZE);
    assert Decimal(1) == ONE;
    MissingEmailIsSyntaxError(1, BOB);
    assert INSERT_NO_MAIL[0] != DOT;
  }

  /** "insert abc bob bob@x.com", with a word for the id, is a syntax error. */
  lemma InsertWithWordId(rows: seq<Row>)
    ensures StepSpec(rows, INSERT_WORD_ID) == (SyntaxError, rows)
  {
    assert NoNul([SPACE] + ABC_BOB_MAIL);
    NonNumericIdIsSyntaxError([SPACE], ABC_BOB_MAIL);
    assert INSERT_WORD_ID[0] != DOT;
  }

  /** "insert 1 bob bob@x.com" into an empty table, then "select", prints that one row. */
  lemma InsertOneThenSelect()
    ensures var row := Row(1, Pad(BOB, USERNAME_SIZE), Pad(BOB_MAIL, EMAIL_SIZE));
            Run([], [INSERT_BOB, SELECT_KEYWORD]) == ([Executed([]), Executed([row])], [row])
  {
    assert IsToken(BOB, USERNAME_SIZE);
    assert IsToken(BOB_MAIL, EMAIL_SIZE);
    assert Decimal(1) == ONE;
    assert INSERT_BOB == InsertLine(1, BOB, BOB_MAIL);
    var row := Row(1, Pad(BOB, USERNAME_SIZE), Pad(BOB_MAIL, EMAIL_SIZE));
    var none: seq<Row> := [];
    InsertThenSelect(none, 1, BOB, BOB_MAIL);
    assert none + [row] == [row];
  }
}
