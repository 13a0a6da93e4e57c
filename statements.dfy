/**
  The statement parser (`prepareStatement`): classifies one input line as
  an insert, a select, a syntax error or an unrecognized statement. The
  insert arguments are read the way `sscanf(line, "insert %d %s %s")`
  reads them.
*/
module Statements {
  import opened Common
  import opened Layout
  import opened RowCodec

  const NUL: byte := 0
  const SPACE: byte := 32
  const PLUS: byte := 43
  const MINUS: byte := 45
  const ZERO: byte := 48

  /** The bytes of "insert". */
  const INSERT_KEYWORD: seq<byte> := [105, 110, 115, 101, 114, 116]
  /** The bytes of "select". */
  const SELECT_KEYWORD: seq<byte> := [115, 101, 108, 101, 99, 116]

  datatype Statement = Insert(row: Row) | Select

  datatype PrepareResult =
    | PrepareSuccess(statement: Statement)
    | PrepareSyntaxError
    | PrepareUnrecognizedStatement

  /** The C `isspace` class: blank, tab, newline, vertical tab, form feed, carriage return. */
  predicate IsSpace(b: byte)
  {
    b == SPACE || 9 <= b <= 13
  }

  predicate IsDigit(b: byte)
  {
    ZERO <= b <= ZERO + 9
  }

  predicate AllDigits(s: seq<byte>)
  {
    forall i :: 0 <= i < |s| ==> IsDigit(s[i])
  }

  predicate AllSpace(s: seq<byte>)
  {
    forall i :: 0 <= i < |s| ==> IsSpace(s[i])
  }

  /** What `%d` accepts as a sign: none, a plus or a minus. */
  predicate IsSign(sign: seq<byte>)
  {
    sign == [] || sign == [PLUS] || sign == [MINUS]
  }

  /** The value of a magnitude written after `sign`. */
  function Signed(sign: seq<byte>, magnitude: nat): int
  {
    if sign == [MINUS] then -(magnitude as int) else magnitude
  }

  /** The C string held in a buffer: its bytes up to the first NUL. */
  function CString(buf: seq<byte>): (s: seq<byte>)
    ensures |s| <= |buf| && s == buf[..|s|]
    ensures NoNul(s)
    ensures |s| < |buf| ==> buf[|s|] == NUL
  {
    if buf == [] || buf[0] == NUL then [] else [buf[0]] + CString(buf[1..])
  }

  /** A buffer without NUL bytes is its own C string. */
  lemma CStringOfText(s: seq<byte>)
    requires NoNul(s)
    ensures CString(s) == s
  {
  }

  /** What is left after skipping leading white space. */
  function SkipSpace(s: seq<byte>): (r: seq<byte>)
    ensures |r| <= |s| && r == s[|s| - |r|..]
    ensures forall i :: 0 <= i < |s| - |r| ==> IsSpace(s[i])
    ensures r == [] || !IsSpace(r[0])
  {
    if s != [] && IsSpace(s[0]) then SkipSpace(s[1..]) else s
  }

  /** The longest prefix of `s` without white space. */
  function SpanToken(s: seq<byte>): (tok: seq<byte>)
    ensures |tok| <= |s| && tok == s[..|tok|]
    ensures forall i :: 0 <= i < |tok| ==> !IsSpace(tok[i])
    ensures |tok| == |s| || IsSpace(s[|tok|])
  {
    if s != [] && !IsSpace(s[0]) then [s[0]] + SpanToken(s[1..]) else []
  }

  /** The longest prefix of `s` made of decimal digits. */
  function SpanDigits(s: seq<byte>): (ds: seq<byte>)
    ensures |ds| <= |s| && ds == s[..|ds|]
    ensures AllDigits(ds)
    ensures |ds| == |s| || !IsDigit(s[|ds|])
  {
    if s != [] && IsDigit(s[0]) then [s[0]] + SpanDigits(s[1..]) else []
  }

  /** The number a string of decimal digits denotes. */
  function DecimalValue(ds: seq<byte>): nat
    requires AllDigits(ds)
  {
    if ds == [] then 0 else DecimalValue(ds[..|ds| - 1]) * 10 + (ds[|ds| - 1] - ZERO)
  }

  /** The decimal digits of `n`, without leading zeros; they denote `n`. */
  function Decimal(n: nat): (ds: seq<byte>)
    ensures |ds| > 0 && AllDigits(ds)
    ensures DecimalValue(ds) == n
  {
    if n < 10 then [ZERO + n]
    else
      var front := Decimal(n / 10);
      assert (front + [ZERO + n % 10])[..|front|] == front;
      front + [ZERO + n % 10]
  }

  /**
    The `%d` conversion: after white space, an optional sign and at least
    one digit; the value (with its sign) and the unread rest. The rest is
    a proper suffix that does not start with a digit.
  */
  function ScanInt(s: seq<byte>): (r: Option<(int, seq<byte>)>)
    ensures r.Some? ==> |r.value.1| < |s| && r.value.1 == s[|s| - |r.value.1|..]
    ensures r.Some? ==> r.value.1 == [] || !IsDigit(r.value.1[0])
  {
    var t := SkipSpace(s);
    var signed := t != [] && (t[0] == MINUS || t[0] == PLUS);
    var unsigned := if signed then t[1..] else t;
    var ds := SpanDigits(unsigned);
    if ds == [] then None
    else
      IntRest(s, t, unsigned, ds);
      var magnitude: int := DecimalValue(ds);
      Some(((if signed && t[0] == MINUS then -magnitude else magnitude), unsigned[|ds|..]))
  }

  /** Where the text left after a `%d` conversion sits in its input. */
  lemma IntRest(s: seq<byte>, t: seq<byte>, unsigned: seq<byte>, ds: seq<byte>)
    requires |t| <= |s| && t == s[|s| - |t|..]
    requires unsigned == t || (t != [] && unsigned == t[1..])
    requires 0 < |ds| <= |unsigned| && ds == unsigned[..|ds|]
    requires |ds| == |unsigned| || !IsDigit(unsigned[|ds|])
    ensures |unsigned[|ds|..]| < |s| && unsigned[|ds|..] == s[|s| - |unsigned[|ds|..]|..]
    ensures unsigned[|ds|..] == [] || !IsDigit(unsigned[|ds|..][0])
  {
    if unsigned == t {
      SuffixOfSuffix(s, t, |ds|);
    } else {
      SuffixOfSuffix(s, t, 1);
      SuffixOfSuffix(s, unsigned, |ds|);
    }
    if |ds| < |unsigned| {
      assert unsigned[|ds|..][0] == unsigned[|ds|];
    }
  }

  /**
    The `%s` conversion: after white space, the longest non-empty run of
    non-white-space bytes, and the unread rest. It fails exactly when only
    white space is left.
  */
  function ScanString(s: seq<byte>): (r: Option<(seq<byte>, seq<byte>)>)
    ensures StringScanned(s, r)
  {
    var t := SkipSpace(s);
    var tok := SpanToken(t);
    var r := if tok == [] then None else Some((tok, t[|tok|..]));
    TokenAfterSpace(s, r);
    r
  }

  /**
    `r` is a `%s` conversion of `s`: none exactly when `s` is all white
    space, otherwise a non-empty blank-free token preceded in `s` by white
    space only and followed by the rest, which is a suffix of `s` that is
    empty or starts with white space.
  */
  predicate StringScanned(s: seq<byte>, r: Option<(seq<byte>, seq<byte>)>)
  {
    && (r.None? <==> AllSpace(s))
    && (r.Some? ==> |r.value.0| > 0 && forall i :: 0 <= i < |r.value.0| ==> !IsSpace(r.value.0[i]))
    && (r.Some? ==> |r.value.0| + |r.value.1| <= |s|
                    && s[|s| - |r.value.0| - |r.value.1|..] == r.value.0 + r.value.1
                    && r.value.1 == s[|s| - |r.value.1|..]
                    && (r.value.1 == [] || IsSpace(r.value.1[0]))
                    && forall i :: 0 <= i < |s| - |r.value.0| - |r.value.1| ==> IsSpace(s[i]))
  }

  /** How the token `ScanString` reads sits in its input. */
  lemma TokenAfterSpace(s: seq<byte>, r: Option<(seq<byte>, seq<byte>)>)
    requires var t := SkipSpace(s); var tok := SpanToken(t);
             r == if tok == [] then None else Some((tok, t[|tok|..]))
    ensures StringScanned(s, r)
  {
    var t := SkipSpace(s);
    var tok := SpanToken(t);
    if tok == [] {
      assert t == [];
    } else {
      TokenFound(s, t, tok);
    }
  }

  /** The case where `%s` finds a token: what the token and the rest are. */
  lemma TokenFound(s: seq<byte>, t: seq<byte>, tok: seq<byte>)
    requires |t| <= |s| && t == s[|s| - |t|..]
    requires forall i :: 0 <= i < |s| - |t| ==> IsSpace(s[i])
    requires 0 < |tok| <= |t| && tok == t[..|tok|]
    requires forall i :: 0 <= i < |tok| ==> !IsSpace(tok[i])
    requires |tok| == |t| || IsSpace(t[|tok|])
    ensures StringScanned(s, Some((tok, t[|tok|..])))
  {
    var rest := t[|tok|..];
    assert |tok| + |rest| == |t| <= |s|;
    assert !IsSpace(s[|s| - |t|]) by {
      assert s[|s| - |t|] == t[0] == tok[0];
    }
    assert t == tok + rest;
    SuffixOfSuffix(s, t, |tok|);
    assert rest == [] || IsSpace(rest[0]) by {
      if rest != [] {
        assert rest[0] == t[|tok|];
      }
    }
  }

  /** A suffix of a suffix of `s` is a suffix of `s`. */
  lemma SuffixOfSuffix(s: seq<byte>, t: seq<byte>, k: nat)
    requires |t| <= |s| && t == s[|s| - |t|..] && k <= |t|
    ensures t[k..] == s[|s| - (|t| - k)..]
  {
    forall i | 0 <= i < |t| - k
      ensures t[k..][i] == s[|s| - (|t| - k)..][i]
    {
      assert t[k..][i] == t[k + i] == s[|s| - |t| + k + i];
    }
  }

  /** A `%d` value stored through a `uint32_t`: taken modulo 2^32. */
  function ToUint32(n: int): (x: uint32)
    ensures 0 <= n < UINT32_LIMIT ==> x == n
    ensures -0x1_0000_0000 <= n < 0 ==> x == n + 0x1_0000_0000
  {
    n % 0x1_0000_0000
  }

  /** A token stored as a fixed-width, NUL-terminated and NUL-padded column. */
  function Pad(token: seq<byte>, width: nat): (field: seq<byte>)
    requires |token| < width
    ensures |field| == width
  {
    token + seq(width - |token|, _ => NUL)
  }

  /** The text of a padded column is the token it was made from. */
  lemma PadText(token: seq<byte>, width: nat)
    requires |token| < width && NoNul(token)
    ensures CString(Pad(token, width)) == token
  {
    var field := Pad(token, width);
    var s := CString(field);
    assert field[|token|] == NUL;
  }

  /**
    The three conversions of `sscanf(text, "insert %d %s %s")` once the
    keyword has matched: `None` when fewer than three succeed. Anything
    after the email token is ignored.
  */
  function ScanArguments(args: seq<byte>): (r: Option<(int, seq<byte>, seq<byte>)>)
    ensures r.None? <==> || ScanInt(args).None?
                         || AllSpace(ScanInt(args).value.1)
                         || AllSpace(ScanString(ScanInt(args).value.1).value.1)
    ensures r.Some? ==> r.value.0 == ScanInt(args).value.0
    ensures r.Some? ==> && |r.value.1| > 0 && (forall i :: 0 <= i < |r.value.1| ==> !IsSpace(r.value.1[i]))
                        && |r.value.2| > 0 && (forall i :: 0 <= i < |r.value.2| ==> !IsSpace(r.value.2[i]))
  {
    match ScanInt(args)
    case None => None
    case Some((n, rest)) =>
      match ScanString(rest)
      case None => None
      case Some((username, rest')) =>
        match ScanString(rest')
        case None => None
        case Some((email, _)) => Some((n, username, email))
  }

  /**
    The insert arguments of `text` as a row: the three conversions must
    succeed, and each token must fit its column together with its
    terminating NUL.
  */
  function ScanInsert(text: seq<byte>): (r: Option<Row>)
    requires INSERT_KEYWORD <= text
    ensures var a := ScanArguments(text[|INSERT_KEYWORD|..]);
            r.None? <==> a.None? || |a.value.1| >= USERNAME_SIZE || |a.value.2| >= EMAIL_SIZE
    ensures r.Some? ==>
              var (n, username, email) := ScanArguments(text[|INSERT_KEYWORD|..]).value;
              && |username| < USERNAME_SIZE && |email| < EMAIL_SIZE
              && r.value == Row(ToUint32(n), Pad(username, USERNAME_SIZE), Pad(email, EMAIL_SIZE))
  {
    match ScanArguments(text[|INSERT_KEYWORD|..])
    case None => None
    case Some((n, username, email)) =>
      if |username| < USERNAME_SIZE && |email| < EMAIL_SIZE then
        Some(Row(ToUint32(n), Pad(username, USERNAME_SIZE), Pad(email, EMAIL_SIZE)))
      else None
  }

  /**
    `prepareStatement`: a line whose text starts with "insert" is an
    insert or a syntax error, a line whose text is exactly "select" is a
    select, and every other line is unrecognized.
  */
  function Prepare(line: seq<byte>): (r: PrepareResult)
    ensures var text := CString(line);
            && (r.PrepareUnrecognizedStatement? <==> !(INSERT_KEYWORD <= text) && text != SELECT_KEYWORD)
            && (r == PrepareSuccess(Select) <==> text == SELECT_KEYWORD)
            && (r.PrepareSyntaxError? || (r.PrepareSuccess? && r.statement.Insert?) <==> INSERT_KEYWORD <= text)
  {
    var text := CString(line);
    KeywordsDiffer();
    if INSERT_KEYWORD <= text then
      var row := ScanInsert(text);
      if row.Some? then PrepareSuccess(Insert(row.value)) else PrepareSyntaxError
    else if text == SELECT_KEYWORD then PrepareSuccess(Select)
    else PrepareUnrecognizedStatement
  }

  /** No line both starts with "insert" and is "select". */
  lemma KeywordsDiffer()
    ensures !(INSERT_KEYWORD <= SELECT_KEYWORD)
  {
    assert INSERT_KEYWORD[0] != SELECT_KEYWORD[0];
  }

  /** A token the parser accepts into a column of `width` bytes. */
  predicate IsToken(t: seq<byte>, width: nat)
  {
    0 < |t| < width && forall i :: 0 <= i < |t| ==> !IsSpace(t[i]) && t[i] != NUL
  }

  /**
    A parsed insert carries columns whose text is a non-empty token
    without white space that fits its column, NUL included.
  */
  lemma PreparedRowFits(line: seq<byte>)
    requires Prepare(line).PrepareSuccess? && Prepare(line).statement.Insert?
    ensures var row := Prepare(line).statement.row;
            && IsToken(CString(row.username), USERNAME_SIZE)
            && IsToken(CString(row.email), EMAIL_SIZE)
  {
    var text := CString(line);
    assert INSERT_KEYWORD <= text && ScanInsert(text).Some?;
    var row := ScanInsert(text).value;
    assert Prepare(line).statement.row == row;
    var args := text[|INSERT_KEYWORD|..];
    assert NoNul(args) by {
      NoNulSuffix(text, args);
    }
    var scanned := ScanArguments(args).value;
    assert row.username == Pad(scanned.1, USERNAME_SIZE) && row.email == Pad(scanned.2, EMAIL_SIZE);
    ScannedTokens(args);
    PadText(scanned.1, USERNAME_SIZE);
    PadText(scanned.2, EMAIL_SIZE);
  }

  /** The tokens the conversions read from NUL-free text are NUL-free, non-empty and blank-free. */
  lemma ScannedTokens(args: seq<byte>)
    requires NoNul(args) && ScanArguments(args).Some?
    ensures var (_, username, email) := ScanArguments(args).value;
            && 0 < |username| && (forall i :: 0 <= i < |username| ==> !IsSpace(username[i]) && username[i] != NUL)
            && 0 < |email| && (forall i :: 0 <= i < |email| ==> !IsSpace(email[i]) && email[i] != NUL)
  {
    ScanArgumentsParts(args);
    var rest := ScanInt(args).value.1;
    NoNulSuffix(args, rest);
    ScannedToken(rest, ScanString(rest));
    ScannedToken(ScanString(rest).value.1, ScanString(ScanString(rest).value.1));
  }

  /** How `ScanArguments` is made of its three conversions. */
  lemma ScanArgumentsParts(args: seq<byte>)
    requires ScanArguments(args).Some?
    ensures ScanInt(args).Some?
    ensures ScanString(ScanInt(args).value.1).Some?
    ensures ScanString(ScanString(ScanInt(args).value.1).value.1).Some?
    ensures ScanArguments(args).value.1 == ScanString(ScanInt(args).value.1).value.0
    ensures ScanArguments(args).value.2 == ScanString(ScanString(ScanInt(args).value.1).value.1).value.0
  {
  }

  lemma NoNulSuffix(s: seq<byte>, r: seq<byte>)
    requires NoNul(s) && |r| <= |s| && r == s[|s| - |r|..]
    ensures NoNul(r)
  {
    forall k | 0 <= k < |r| ensures r[k] != NUL {
      assert r[k] == s[|s| - |r| + k];
    }
  }

  /** The token and the rest that `%s` reads from NUL-free text are NUL-free. */
  lemma ScannedToken(s: seq<byte>, r: Option<(seq<byte>, seq<byte>)>)
    requires NoNul(s) && StringScanned(s, r) && r.Some?
    ensures NoNul(r.value.0) && NoNul(r.value.1)
  {
    var (tok, rest) := r.value;
    NoNulSlice(s, |s| - |tok| - |rest|, |s| - |rest|);
    assert tok == s[|s| - |tok| - |rest|..|s| - |rest|];
    NoNulSuffix(s, rest);
  }

  lemma NoNulSlice(s: seq<byte>, i: nat, j: nat)
    requires i <= j <= |s| && NoNul(s)
    ensures NoNul(s[i..j])
  {
    forall k | 0 <= k < j - i ensures s[i..j][k] != NUL {
      assert s[i..j][k] == s[i + k];
    }
  }

  /** The line `insert <id> <username> <email>`, single-spaced. */
  function InsertLine(id: nat, username: seq<byte>, email: seq<byte>): seq<byte>
  {
    INSERT_KEYWORD + [SPACE] + Decimal(id) + [SPACE] + username + [SPACE] + email
  }

  /** Skipping white space in front of a non-blank text yields that text. */
  lemma {:induction false} SkipSpaceTo(blanks: seq<byte>, t: seq<byte>)
    requires forall i :: 0 <= i < |blanks| ==> IsSpace(blanks[i])
    requires t == [] || !IsSpace(t[0])
    ensures SkipSpace(blanks + t) == t
  {
    if blanks != [] {
      assert (blanks + t)[1..] == blanks[1..] + t;
      SkipSpaceTo(blanks[1..], t);
    }
  }

  /** The token scanned from a token followed by white space or the end is that token. */
  lemma {:induction false} SpanTokenOf(tok: seq<byte>, rest: seq<byte>)
    requires forall i :: 0 <= i < |tok| ==> !IsSpace(tok[i])
    requires rest == [] || IsSpace(rest[0])
    ensures SpanToken(tok + rest) == tok
  {
    if tok == [] {
      assert tok + rest == rest;
    } else {
      assert (tok + rest)[1..] == tok[1..] + rest;
      SpanTokenOf(tok[1..], rest);
      assert tok == [tok[0]] + tok[1..];
    }
  }

  /** The digits scanned from digits followed by a non-digit or the end are those digits. */
  lemma {:induction false} SpanDigitsOf(ds: seq<byte>, rest: seq<byte>)
    requires AllDigits(ds)
    requires rest == [] || !IsDigit(rest[0])
    ensures SpanDigits(ds + rest) == ds
  {
    if ds == [] {
      assert ds + rest == rest;
    } else {
      assert (ds + rest)[1..] == ds[1..] + rest;
      SpanDigitsOf(ds[1..], rest);
      assert ds == [ds[0]] + ds[1..];
    }
  }

  lemma NoNulJoin(a: seq<byte>, b: seq<byte>)
    requires NoNul(a) && NoNul(b)
    ensures NoNul(a + b)
  {
    forall i | 0 <= i < |a + b| ensures (a + b)[i] != NUL {
      if i >= |a| {
        assert (a + b)[i] == b[i - |a|];
      }
    }
  }

  /**
    The `%d` conversion of white space, an optional sign, digits, then a
    text not starting with a digit: the signed value of those digits, and
    that text left unread.
  */
  lemma {:induction false} ScanIntOf(blanks: seq<byte>, sign: seq<byte>, digits: seq<byte>, tail: seq<byte>)
    requires AllSpace(blanks) && IsSign(sign)
    requires |digits| > 0 && AllDigits(digits)
    requires tail == [] || !IsDigit(tail[0])
    ensures ScanInt(blanks + sign + digits + tail) == Some((Signed(sign, DecimalValue(digits)), tail))
  {
    var unsigned := digits + tail;
    var t := sign + unsigned;
    assert blanks + sign + digits + tail == blanks + t;
    assert unsigned[0] == digits[0];
    assert t[0] == if sign == [] then digits[0] else sign[0];
    SkipSpaceTo(blanks, t);
    ScanIntUnfold(blanks + t, sign, unsigned);
    SpanDigitsOf(digits, tail);
    assert unsigned[|digits|..] == tail;
  }

  /**
    `%d` fails exactly when no digit follows the white space and the
    optional sign. The white space and the sign are taken as long as they
    go: without a sign, the rest starts with neither white space nor a sign.
  */
  lemma {:induction false} ScanIntFails(blanks: seq<byte>, sign: seq<byte>, rest: seq<byte>)
    requires AllSpace(blanks) && IsSign(sign)
    requires sign == [] ==> rest == [] || (!IsSpace(rest[0]) && rest[0] != PLUS && rest[0] != MINUS)
    ensures ScanInt(blanks + sign + rest).None? <==> rest == [] || !IsDigit(rest[0])
  {
    var t := sign + rest;
    assert blanks + sign + rest == blanks + t;
    if sign != [] {
      assert t[0] == sign[0];
    }
    SkipSpaceTo(blanks, t);
    ScanIntUnfold(blanks + t, sign, rest);
  }

  /** `ScanInt` once the white space is skipped and the sign, if any, is split off. */
  lemma {:induction false} ScanIntUnfold(s: seq<byte>, sign: seq<byte>, unsigned: seq<byte>)
    requires SkipSpace(s) == sign + unsigned && IsSign(sign)
    requires sign == [] ==> unsigned == [] || (unsigned[0] != PLUS && unsigned[0] != MINUS)
    ensures var ds := SpanDigits(unsigned);
            ScanInt(s) == if ds == [] then None else Some((Signed(sign, DecimalValue(ds)), unsigned[|ds|..]))
  {
    if sign == [] {
      assert sign + unsigned == unsigned;
      ScanIntUnsigned(s, unsigned);
    } else {
      assert sign == [sign[0]];
      ScanIntSigned(s, sign[0], unsigned);
    }
  }

  /** `ScanInt` on text whose first non-blank byte is not a sign. */
  lemma {:induction false} ScanIntUnsigned(s: seq<byte>, t: seq<byte>)
    requires SkipSpace(s) == t
    requires t == [] || (t[0] != PLUS && t[0] != MINUS)
    ensures var ds := SpanDigits(t);
            ScanInt(s) == if ds == [] then None else Some((DecimalValue(ds) as int, t[|ds|..]))
  {
  }

  /** `ScanInt` on text whose first non-blank byte is the sign `c`. */
  lemma {:induction false} ScanIntSigned(s: seq<byte>, c: byte, unsigned: seq<byte>)
    requires SkipSpace(s) == [c] + unsigned && (c == PLUS || c == MINUS)
    ensures var ds := SpanDigits(unsigned); var v := DecimalValue(ds) as int;
            ScanInt(s) == if ds == [] then None else Some((if c == MINUS then -v else v, unsigned[|ds|..]))
  {
    var t := [c] + unsigned;
    assert t[0] == c && t[1..] == unsigned;
  }

  /** The `%s` conversion of white space, a token, then white space or the end. */
  lemma {:induction false} ScanStringOf(blanks: seq<byte>, tok: seq<byte>, rest: seq<byte>)
    requires AllSpace(blanks)
    requires |tok| > 0 && forall i :: 0 <= i < |tok| ==> !IsSpace(tok[i])
    requires rest == [] || IsSpace(rest[0])
    ensures ScanString(blanks + (tok + rest)) == Some((tok, rest))
  {
    SkipSpaceTo(blanks, tok + rest);
    SpanTokenOf(tok, rest);
    assert (tok + rest)[|tok|..] == rest;
  }

  /** The bytes of a token and of a decimal number contain no NUL. */
  lemma LineParts(id: nat, tok: seq<byte>, width: nat)
    requires IsToken(tok, width)
    ensures NoNul(Decimal(id)) && NoNul(tok) && NoNul([SPACE]) && NoNul(INSERT_KEYWORD)
  {
  }

  lemma AfterPrefix(a: seq<byte>, b: seq<byte>)
    ensures a <= a + b && (a + b)[|a|..] == b
  {
  }

  /** The argument part of an insert line: a blank, the id digits, then the blank-separated tokens. */
  function InsertArgs(id: nat, username: seq<byte>, email: seq<byte>): seq<byte>
  {
    [SPACE] + (Decimal(id) + ([SPACE] + (username + ([SPACE] + email))))
  }

  lemma InsertLineSplit(id: nat, username: seq<byte>, email: seq<byte>)
    ensures InsertLine(id, username, email) == INSERT_KEYWORD + InsertArgs(id, username, email)
  {
  }

  /** An insert line built from tokens contains no NUL, so it is all text. */
  lemma InsertLineIsText(id: nat, username: seq<byte>, email: seq<byte>)
    requires IsToken(username, USERNAME_SIZE) && IsToken(email, EMAIL_SIZE)
    ensures CString(InsertLine(id, username, email)) == InsertLine(id, username, email)
  {
    var digits := Decimal(id);
    LineParts(id, username, USERNAME_SIZE);
    LineParts(id, email, EMAIL_SIZE);
    NoNulJoin([SPACE], email);
    NoNulJoin(username, [SPACE] + email);
    NoNulJoin([SPACE], username + ([SPACE] + email));
    NoNulJoin(digits, [SPACE] + (username + ([SPACE] + email)));
    NoNulJoin([SPACE], digits + ([SPACE] + (username + ([SPACE] + email))));
    NoNulJoin(INSERT_KEYWORD, InsertArgs(id, username, email));
    InsertLineSplit(id, username, email);
    CStringOfText(InsertLine(id, username, email));
  }

  /** The three conversions of an insert line's arguments read back its id and tokens. */
  lemma ScanInsertArgs(id: uint32, username: seq<byte>, email: seq<byte>)
    requires IsToken(username, USERNAME_SIZE) && IsToken(email, EMAIL_SIZE)
    ensures ScanInt(InsertArgs(id, username, email)) == Some((id as int, [SPACE] + (username + ([SPACE] + email))))
    ensures ScanString([SPACE] + (username + ([SPACE] + email))) == Some((username, [SPACE] + email))
    ensures ScanString([SPACE] + email) == Some((email, []))
  {
    var digits := Decimal(id);
    var tail := [SPACE] + (username + ([SPACE] + email));
    assert [SPACE] + [] + digits + tail == InsertArgs(id, username, email);
    ScanIntOf([SPACE], [], digits, tail);
    ScanStringOf([SPACE], username, [SPACE] + email);
    ScanStringOf([SPACE], email, []);
    assert email + [] == email;
  }

  /**
    Parsing the line `insert <id> <username> <email>` yields the insert of
    exactly that row: the parser inverts `InsertLine`.
  */
  lemma {:induction false} PrepareInsertLine(id: uint32, username: seq<byte>, email: seq<byte>)
    requires IsToken(username, USERNAME_SIZE) && IsToken(email, EMAIL_SIZE)
    ensures Prepare(InsertLine(id, username, email))
         == PrepareSuccess(Insert(Row(id, Pad(username, USERNAME_SIZE), Pad(email, EMAIL_SIZE))))
  {
    InsertLineIsText(id, username, email);
    ScanInsertLine(id, username, email);
  }

  lemma ScanArgumentsOf(id: uint32, username: seq<byte>, email: seq<byte>)
    requires IsToken(username, USERNAME_SIZE) && IsToken(email, EMAIL_SIZE)
    ensures ScanArguments(InsertArgs(id, username, email)) == Some((id as int, username, email))
  {
    ScanInsertArgs(id, username, email);
  }

  lemma {:induction false} ScanInsertLine(id: uint32, username: seq<byte>, email: seq<byte>)
    requires IsToken(username, USERNAME_SIZE) && IsToken(email, EMAIL_SIZE)
    ensures INSERT_KEYWORD <= InsertLine(id, username, email)
    ensures ScanInsert(InsertLine(id, username, email))
         == Some(Row(id, Pad(username, USERNAME_SIZE), Pad(email, EMAIL_SIZE)))
  {
    InsertLineSplit(id, username, email);
    ScanArgumentsOf(id, username, email);
    ScanInsertOf(InsertArgs(id, username, email), id, username, email);
  }

  lemma {:induction false} ScanInsertOf(args: seq<byte>, id: uint32, username: seq<byte>, email: seq<byte>)
    requires |username| < USERNAME_SIZE && |email| < EMAIL_SIZE
    requires ScanArguments(args) == Some((id as int, username, email))
    ensures INSERT_KEYWORD <= INSERT_KEYWORD + args
    ensures ScanInsert(INSERT_KEYWORD + args) == Some(Row(id, Pad(username, USERNAME_SIZE), Pad(email, EMAIL_SIZE)))
  {
    var text := INSERT_KEYWORD + args;
    AfterPrefix(INSERT_KEYWORD, args);
    assert text[|INSERT_KEYWORD|..] == args;
    var a := ScanArguments(text[|INSERT_KEYWORD|..]);
    assert a == Some((id as int, username, email));
    assert !(a.None? || |a.value.1| >= USERNAME_SIZE || |a.value.2| >= EMAIL_SIZE);
    assert ToUint32(id as int) == id;
  }

  /** `insert <id> <username>` with the email missing is a syntax error. */
  lemma {:induction false} MissingEmailIsSyntaxError(id: uint32, username: seq<byte>)
    requires IsToken(username, USERNAME_SIZE)
    ensures Prepare(INSERT_KEYWORD + [SPACE] + Decimal(id) + [SPACE] + username) == PrepareSyntaxError
  {
    var digits := Decimal(id);
    var tail := [SPACE] + (username + []);
    var afterKeyword := [SPACE] + (digits + tail);
    var line := INSERT_KEYWORD + [SPACE] + digits + [SPACE] + username;
    assert line == INSERT_KEYWORD + afterKeyword;
    LineParts(id, username, USERNAME_SIZE);
    NoNulJoin(username, []);
    NoNulJoin([SPACE], username + []);
    NoNulJoin(digits, tail);
    NoNulJoin([SPACE], digits + tail);
    NoNulJoin(INSERT_KEYWORD, afterKeyword);
    CStringOfText(line);
    AfterPrefix(INSERT_KEYWORD, afterKeyword);
    assert [SPACE] + [] + digits + tail == afterKeyword;
    ScanIntOf([SPACE], [], digits, tail);
    ScanStringOf([SPACE], username, []);
    MissingConversion(afterKeyword, tail);
    ArgumentsFail(line);
  }

  /** The arguments fail to convert when the text after the id holds one token only. */
  lemma MissingConversion(args: seq<byte>, tail: seq<byte>)
    requires ScanInt(args).Some? && ScanInt(args).value.1 == tail
    requires ScanString(tail).Some? && ScanString(tail).value.1 == []
    ensures ScanArguments(args) == None
  {
    assert ScanString([]) == None;
  }

  /** An insert line whose arguments do not convert is a syntax error. */
  lemma ArgumentsFail(line: seq<byte>)
    requires CString(line) == line && INSERT_KEYWORD <= line
    requires ScanArguments(line[|INSERT_KEYWORD|..]) == None
    ensures Prepare(line) == PrepareSyntaxError
  {
  }

  /**
    `insert` followed by white space and then something that is neither a
    sign nor a digit is a syntax error: the id does not convert.
  */
  lemma {:induction false} NonNumericIdIsSyntaxError(blanks: seq<byte>, rest: seq<byte>)
    requires forall i :: 0 <= i < |blanks| ==> IsSpace(blanks[i])
    requires NoNul(blanks + rest)
    requires rest != [] && !IsSpace(rest[0]) && !IsDigit(rest[0]) && rest[0] != PLUS && rest[0] != MINUS
    ensures Prepare(INSERT_KEYWORD + blanks + rest) == PrepareSyntaxError
  {
    var line := INSERT_KEYWORD + blanks + rest;
    assert NoNul(line) by {
      forall i | 0 <= i < |line| ensures line[i] != NUL {
        if i >= |INSERT_KEYWORD| {
          assert line[i] == (blanks + rest)[i - |INSERT_KEYWORD|];
        }
      }
    }
    CStringOfText(line);
    assert line[|INSERT_KEYWORD|..] == blanks + rest;
    SkipSpaceTo(blanks, rest);
    assert SpanDigits(rest) == [];
  }
}
