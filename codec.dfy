/**
  The record codec: a row is packed into its ROW_SIZE-byte slot as the id,
  then the username bytes, then the email bytes, at the declared offsets.
  The id is written least significant byte first.
*/
module RowCodec {
  import opened Common
  import opened Layout

  /** The fixed-width username column (NUL-padded text). */
  type UsernameBytes = s: seq<byte> | |s| == USERNAME_SIZE witness seq(32, _ => 0)

  /** The fixed-width email column (NUL-padded text). */
  type EmailBytes = s: seq<byte> | |s| == EMAIL_SIZE witness seq(255, _ => 0)

  datatype Row = Row(id: uint32, username: UsernameBytes, email: EmailBytes)

  /** The four bytes of `x`, least significant first. */
  function EncodeU32(x: uint32): (r: seq<byte>)
    ensures |r| == ID_SIZE
  {
    var q1 := x / 256;
    var q2 := q1 / 256;
    var q3 := q2 / 256;
    [x % 256, q1 % 256, q2 % 256, q3]
  }

  function DecodeU32(b: seq<byte>): uint32
    requires |b| == ID_SIZE
  {
    b[0] as int + 256 * (b[1] as int + 256 * (b[2] as int + 256 * b[3] as int))
  }

  lemma U32RoundTrip(x: uint32)
    ensures DecodeU32(EncodeU32(x)) == x
  {
    var q1 := x / 256;
    var q2 := q1 / 256;
    var q3 := q2 / 256;
    assert q2 % 256 + 256 * q3 == q2;
    assert q1 % 256 + 256 * q2 == q1;
    assert x % 256 + 256 * q1 == x;
  }

  lemma U32BytesRoundTrip(b: seq<byte>)
    requires |b| == ID_SIZE
    ensures EncodeU32(DecodeU32(b)) == b
  {
    var k2: int := b[2] as int + 256 * b[3] as int;
    var k1: int := b[1] as int + 256 * k2;
    var x: int := b[0] as int + 256 * k1;
    assert x / 256 == k1 && x % 256 == b[0];
    assert k1 / 256 == k2 && k1 % 256 == b[1];
    assert k2 / 256 == b[3] && k2 % 256 == b[2];
  }

  /** The ROW_SIZE bytes of a packed row, fields at their declared offsets. */
  function EncodeRow(r: Row): (s: seq<byte>)
    ensures |s| == ROW_SIZE
    ensures s[Offset(Id)..Offset(Id) + Size(Id)] == EncodeU32(r.id)
    ensures s[Offset(Username)..Offset(Username) + Size(Username)] == r.username
    ensures s[Offset(Email)..Offset(Email) + Size(Email)] == r.email
  {
    EncodeU32(r.id) + r.username + r.email
  }

  /** The row packed in the ROW_SIZE bytes `s`. */
  function DecodeRow(s: seq<byte>): Row
    requires |s| == ROW_SIZE
  {
    Row(DecodeU32(s[ID_OFFSET..ID_OFFSET + ID_SIZE]),
        s[USERNAME_OFFSET..USERNAME_OFFSET + USERNAME_SIZE],
        s[EMAIL_OFFSET..EMAIL_OFFSET + EMAIL_SIZE])
  }

  /** Unpacking a packed row gives back the same row. */
  lemma RowRoundTrip(r: Row)
    ensures DecodeRow(EncodeRow(r)) == r
  {
    U32RoundTrip(r.id);
  }

  /** Every slot image is the packing of the row it unpacks to. */
  lemma SlotRoundTrip(s: seq<byte>)
    requires |s| == ROW_SIZE
    ensures EncodeRow(DecodeRow(s)) == s
  {
    U32BytesRoundTrip(s[..ID_SIZE]);
    assert s == s[..ID_SIZE] + s[USERNAME_OFFSET..EMAIL_OFFSET] + s[EMAIL_OFFSET..];
  }

  /** `memcpy(dst + at, src, |src|)`: copy `src` into `dst` starting at byte `at`. */
  method CopyBytes(dst: array<byte>, at: nat, src: seq<byte>)
    requires at + |src| <= dst.Length
    modifies dst
    ensures dst[..] == old(dst[..at]) + src + old(dst[at + |src|..])
  {
    var i := 0;
    while i < |src|
      invariant 0 <= i <= |src|
      invariant forall k :: 0 <= k < dst.Length ==> dst[k] == if at <= k < at + i then src[k - at] else old(dst[k])
    {
      dst[at + i] := src[i];
      i := i + 1;
    }
    assert dst[..] == old(dst[..at]) + src + old(dst[at + |src|..]) by {
      Spliced(old(dst[..]), at, src, dst[..]);
    }
  }

  /** Two ways of saying that `after` is `before` with `src` written at `at`. */
  lemma Spliced(before: seq<byte>, at: nat, src: seq<byte>, after: seq<byte>)
    requires at + |src| <= |before| == |after|
    requires forall k :: 0 <= k < |after| ==> after[k] == if at <= k < at + |src| then src[k - at] else before[k]
    ensures after == before[..at] + src + before[at + |src|..]
  {
    var spliced := before[..at] + src + before[at + |src|..];
    assert |spliced| == |after|;
    forall k | 0 <= k < |after|
      ensures after[k] == spliced[k]
    {
      if k < at {
      } else if k < at + |src| {
        assert spliced[k] == src[k - at];
      } else {
        assert spliced[k] == before[k];
      }
    }
  }

  /**
    `serializeRow`: pack `r` into the slot of `page` that starts at byte
    `slotStart`, field by field; the rest of the page is left as it was.
  */
  method SerializeRow(r: Row, page: array<byte>, slotStart: nat)
    requires slotStart + ROW_SIZE <= page.Length
    modifies page
    ensures page[..] == old(page[..slotStart]) + EncodeRow(r) + old(page[slotStart + ROW_SIZE..])
  {
    ghost var before := page[..];
    CopyBytes(page, FieldStart(slotStart, Id), EncodeU32(r.id));
    ghost var afterId := page[..];
    CopyBytes(page, FieldStart(slotStart, Username), r.username);
    ghost var afterUsername := page[..];
    CopyBytes(page, FieldStart(slotStart, Email), r.email);
    RowWritten(before, afterId, afterUsername, page[..], slotStart, r);
  }

  /** Copying the three fields of `r` one after the other writes `EncodeRow(r)` into the slot. */
  lemma RowWritten(before: seq<byte>, afterId: seq<byte>, afterUsername: seq<byte>, after: seq<byte>,
                   slotStart: nat, r: Row)
    requires slotStart + ROW_SIZE <= |before|
    requires afterId == before[..slotStart] + EncodeU32(r.id) + before[slotStart + ID_SIZE..]
    requires afterUsername == afterId[..slotStart + USERNAME_OFFSET] + r.username
                              + afterId[slotStart + USERNAME_OFFSET + USERNAME_SIZE..]
    requires after == afterUsername[..slotStart + EMAIL_OFFSET] + r.email
                      + afterUsername[slotStart + EMAIL_OFFSET + EMAIL_SIZE..]
    ensures after == before[..slotStart] + EncodeRow(r) + before[slotStart + ROW_SIZE..]
  {
    forall k | 0 <= k < |after|
      ensures after[k] == if slotStart <= k < slotStart + ROW_SIZE then EncodeRow(r)[k - slotStart] else before[k]
    {
      RowByte(before, afterId, afterUsername, after, slotStart, r, k);
    }
    Spliced(before, slotStart, EncodeRow(r), after);
  }

  lemma RowByte(before: seq<byte>, afterId: seq<byte>, afterUsername: seq<byte>, after: seq<byte>,
                slotStart: nat, r: Row, k: nat)
    requires slotStart + ROW_SIZE <= |before|
    requires afterId == before[..slotStart] + EncodeU32(r.id) + before[slotStart + ID_SIZE..]
    requires afterUsername == afterId[..slotStart + USERNAME_OFFSET] + r.username
                              + afterId[slotStart + USERNAME_OFFSET + USERNAME_SIZE..]
    requires after == afterUsername[..slotStart + EMAIL_OFFSET] + r.email
                      + afterUsername[slotStart + EMAIL_OFFSET + EMAIL_SIZE..]
    requires k < |after|
    ensures |after| == |before|
    ensures after[k] == if slotStart <= k < slotStart + ROW_SIZE then EncodeRow(r)[k - slotStart] else before[k]
  {
    FieldOf(afterId, before, slotStart, 0, EncodeU32(r.id), k);
    FieldOf(afterUsername, afterId, slotStart, USERNAME_OFFSET, r.username, k);
    FieldOf(after, afterUsername, slotStart, EMAIL_OFFSET, r.email, k);
    if slotStart <= k < slotStart + ROW_SIZE {
      var encoded := EncodeRow(r);
      var j := k - slotStart;
      if j < USERNAME_OFFSET {
        assert encoded[j] == encoded[..ID_SIZE][j];
      } else if j < EMAIL_OFFSET {
        assert encoded[j] == encoded[USERNAME_OFFSET..EMAIL_OFFSET][j - USERNAME_OFFSET];
      } else {
        assert encoded[j] == encoded[EMAIL_OFFSET..][j - EMAIL_OFFSET];
      }
    }
  }

  /** Byte `k` of a page after `field` was copied to `slotStart + offset` in `prior`. */
  lemma FieldOf(after: seq<byte>, prior: seq<byte>, slotStart: nat, offset: nat, field: seq<byte>, k: nat)
    requires slotStart + offset + |field| <= |prior|
    requires after == prior[..slotStart + offset] + field + prior[slotStart + offset + |field|..]
    requires k < |after|
    ensures |after| == |prior|
    ensures after[k] == if slotStart + offset <= k < slotStart + offset + |field| then field[k - slotStart - offset] else prior[k]
  {
  }

  /**
    `deserializeRow`: read back the row packed in the slot of `page` that
    starts at byte `slotStart`, field by field.
  */
  method DeserializeRow(page: array<byte>, slotStart: nat) returns (r: Row)
    requires slotStart + ROW_SIZE <= page.Length
    ensures EncodeRow(r) == page[slotStart..slotStart + ROW_SIZE]
  {
    var idStart := FieldStart(slotStart, Id);
    var usernameStart := FieldStart(slotStart, Username);
    var emailStart := FieldStart(slotStart, Email);
    r := Row(DecodeU32(page[idStart..idStart + ID_SIZE]),
             page[usernameStart..usernameStart + USERNAME_SIZE],
             page[emailStart..emailStart + EMAIL_SIZE]);
    U32BytesRoundTrip(page[idStart..idStart + ID_SIZE]);
    assert page[slotStart..slotStart + ROW_SIZE]
        == page[idStart..idStart + ID_SIZE] + page[usernameStart..usernameStart + USERNAME_SIZE]
           + page[emailStart..emailStart + EMAIL_SIZE];
  }
}
