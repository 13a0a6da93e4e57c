/**
  The fixed row layout and the page arithmetic of the table: the size
  constants, where each field of a packed row lies, and which page and
  byte offset hold row number `rowNum`.
*/
module Layout {

  const COLUMN_USERNAME_SIZE: nat := 32
  const COLUMN_EMAIL_SIZE: nat := 255
  const TABLE_MAX_PAGES: nat := 100

  const ID_SIZE: nat := 4
  const USERNAME_SIZE: nat := COLUMN_USERNAME_SIZE
  const EMAIL_SIZE: nat := COLUMN_EMAIL_SIZE
  const ID_OFFSET: nat := 0
  const USERNAME_OFFSET: nat := ID_OFFSET + ID_SIZE
  const EMAIL_OFFSET: nat := USERNAME_OFFSET + USERNAME_SIZE
  const ROW_SIZE: nat := ID_SIZE + USERNAME_SIZE + EMAIL_SIZE
  const PAGE_SIZE: nat := 4096
  const ROWS_PER_PAGE: nat := PAGE_SIZE / ROW_SIZE
  const TABLE_MAX_ROWS: nat := ROWS_PER_PAGE * TABLE_MAX_PAGES

  /** The three columns of a row. */
  datatype Field = Id | Username | Email

  function Offset(f: Field): nat
  {
    match f
    case Id => ID_OFFSET
    case Username => USERNAME_OFFSET
    case Email => EMAIL_OFFSET
  }

  function Size(f: Field): nat
  {
    match f
    case Id => ID_SIZE
    case Username => USERNAME_SIZE
    case Email => EMAIL_SIZE
  }

  /** The sizes the declarations above evaluate to. */
  lemma Constants()
    ensures ROW_SIZE == 291 && ROWS_PER_PAGE == 14 && TABLE_MAX_ROWS == 1400
  {
  }

  /**
    The fields are laid out one after the other, in declaration order,
    without gaps, and together they fill the row exactly.
  */
  lemma FieldsTileRow()
    ensures Offset(Id) == 0
    ensures Offset(Username) == Offset(Id) + Size(Id)
    ensures Offset(Email) == Offset(Username) + Size(Username)
    ensures Offset(Email) + Size(Email) == ROW_SIZE
  {
  }

  /** A whole number of rows fits in one page. */
  lemma RowsFitPage()
    ensures ROWS_PER_PAGE * ROW_SIZE <= PAGE_SIZE
    ensures ROWS_PER_PAGE > 0
  {
  }

  /**
    The page and the byte offset of row `rowNum` (the pointer `rowSlot`
    returns, as a pair). The slot lies wholly inside its page, starts on a
    row boundary, and the pair identifies the row: the row number can be
    recovered from it.
  */
  function SlotAddress(rowNum: nat): (r: (nat, nat))
    ensures r.1 + ROW_SIZE <= PAGE_SIZE
    ensures r.1 % ROW_SIZE == 0
    ensures rowNum == r.0 * ROWS_PER_PAGE + r.1 / ROW_SIZE
    ensures rowNum < TABLE_MAX_ROWS <==> r.0 < TABLE_MAX_PAGES
  {
    var pageNum := rowNum / ROWS_PER_PAGE;
    var rowOffset := rowNum % ROWS_PER_PAGE;
    (pageNum, rowOffset * ROW_SIZE)
  }

  function PageOf(rowNum: nat): nat
  {
    SlotAddress(rowNum).0
  }

  function OffsetOf(rowNum: nat): nat
  {
    SlotAddress(rowNum).1
  }

  /** Two different rows on the same page occupy disjoint byte ranges. */
  lemma SlotsDisjoint(i: nat, j: nat)
    requires i < j && PageOf(i) == PageOf(j)
    ensures OffsetOf(i) + ROW_SIZE <= OffsetOf(j)
  {
  }

  /**
    Where the copy of field `f` of a row whose slot starts at byte
    `slotStart` begins, with the field offsets counted in bytes as
    declared. A field lies inside its slot, and so inside the page.
  */
  function FieldStart(slotStart: nat, f: Field): (r: nat)
    ensures slotStart <= r && r + Size(f) <= slotStart + ROW_SIZE
    ensures slotStart + ROW_SIZE <= PAGE_SIZE ==> r + Size(f) <= PAGE_SIZE
  {
    slotStart + Offset(f)
  }

  /**
    Where the copy of field `f` begins as `serializeRow` and
    `deserializeRow` are written: the offset is added to a `Row*`, so C
    scales it by the struct size `rowStride` (`sizeof(Row)`, at least the
    sum of the field sizes).
  */
  function ScaledFieldStart(slotStart: nat, f: Field, rowStride: nat): nat
  {
    slotStart + Offset(f) * rowStride
  }

  /**
    As written, the email copy starts past the end of the page for every
    slot, whatever padding the compiler adds to the struct.
  */
  lemma ScaledEmailLeavesPage(slotStart: nat, rowStride: nat)
    requires rowStride >= ROW_SIZE
    ensures ScaledFieldStart(slotStart, Email, rowStride) >= PAGE_SIZE
  {
  }

  /**
    As written, the username of row 0 is copied to a place that lies
    inside the declared slot of row 4 (for any struct size up to
    5 * ROW_SIZE / 4, which includes the usual 292).
  */
  lemma ScaledUsernameHitsRowFour(rowStride: nat)
    requires ROW_SIZE <= rowStride <= 363
    ensures SlotAddress(4) == (0, 4 * ROW_SIZE)
    ensures OffsetOf(4) <= ScaledFieldStart(OffsetOf(0), Username, rowStride) < OffsetOf(4) + ROW_SIZE
  {
  }
}
