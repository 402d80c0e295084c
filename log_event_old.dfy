/** The pre-5.1.17 row events (Old_rows_log_event): the growable row
    buffer, the post-header decoding of a received event, the size the
    event reports, and the unique-key scan used when a row is replaced. */
module LogEventOld {
  import opened Common

  /** The post-header: a six-byte table id followed by two flag bytes. */
  const RowsHeaderLen: nat := 8
  const RwMapIdOffset: nat := 0
  const RwFlagsOffset: nat := 6
  /** The row buffer grows in whole blocks of this many bytes. */
  const BlockSize: nat := 1024
  const HaErrOutOfMem: int := 128
  /** The key flag of a unique index. */
  const HaNoSame: bv32 := 1
  /** What a length-encoded integer whose first byte is 251 stands for. */
  const NullLength: nat := 0xFFFF_FFFF_FFFF_FFFF

  /* ---------------------------------------------------------------- */
  /* last_uniq_key                                                     */
  /* ---------------------------------------------------------------- */

  /** last_uniq_key: 1 when no key after `keyno` is unique, 0 when one is. */
  method LastUniqKey(keyFlags: seq<bv32>, keyno: nat) returns (r: int)
    ensures r == 0 || r == 1
    ensures r == 0 <==> exists k :: keyno < k < |keyFlags| && keyFlags[k] & HaNoSame != 0
  {
    var k := keyno + 1;
    while k < |keyFlags|
      invariant keyno < k
      invariant forall j :: keyno < j < k && j < |keyFlags| ==> keyFlags[j] & HaNoSame == 0
    {
      if keyFlags[k] & HaNoSame != 0 {
        return 0;
      }
      k := k + 1;
    }
    return 1;
  }

  /* ---------------------------------------------------------------- */
  /* Length-encoded integers                                           */
  /* ---------------------------------------------------------------- */

  /** net_store_length: one byte below 251, otherwise a marker byte
      (252, 253, 254) and two, three or eight little-endian bytes. */
  function NetStoreLength(n: nat): (s: seq<byte>)
    requires n < 0x1_0000_0000_0000_0000
    ensures 1 <= |s| <= 9
  {
    if n < 251 then [n]
    else if n < 0x1_0000 then [252] + Int2Store(n)
    else if n < 0x100_0000 then [253] + Int3Store(n)
    else [254] + Int8Store(n)
  }

  /** How many bytes net_field_length consumes for a first byte `b`. */
  function NetFieldWidth(b: byte): nat
  {
    if b <= 251 then 1 else if b == 252 then 3 else if b == 253 then 4 else 9
  }

  /** net_field_length: the value at `i` and the position after it; the
      eight-byte form is read through its low four bytes. */
  function NetFieldLength(s: seq<byte>, i: nat): (r: (nat, nat))
    requires i < |s| && i + NetFieldWidth(s[i]) <= |s|
    ensures r.1 == i + NetFieldWidth(s[i])
  {
    var b := s[i];
    if b < 251 then (b, i + 1)
    else if b == 251 then (NullLength, i + 1)
    else if b == 252 then (Uint2Korr(s, i + 1), i + 3)
    else if b == 253 then (Uint3Korr(s, i + 1), i + 4)
    else (Uint4Korr(s, i + 1), i + 9)
  }

  /** Reading back a stored length below 2^32 gives it again and moves
      past exactly the stored bytes. */
  lemma NetLengthRoundTrip(s: seq<byte>, i: nat, n: nat)
    requires n < 0x1_0000_0000
    requires i + |NetStoreLength(n)| <= |s| && s[i..i + |NetStoreLength(n)|] == NetStoreLength(n)
    ensures i < |s| && i + NetFieldWidth(s[i]) <= |s|
    ensures NetFieldLength(s, i) == (n, i + |NetStoreLength(n)|)
  {
    var e := NetStoreLength(n);
    assert s[i] == e[0];
    var w := e[1..];
    assert s[i + 1..i + 1 + |w|] == w;
    if n >= 0x100_0000 {
      assert w[..4] == Int4Store(n % 0x1_0000_0000);
      assert s[i + 1..i + 5] == Int4Store(n);
      KorrAt(s, i + 1, Int4Store(n));
    } else if n >= 251 {
      KorrAt(s, i + 1, w);
    }
  }

  /* ---------------------------------------------------------------- */
  /* Decoding a received event                                         */
  /* ---------------------------------------------------------------- */

  /** What the buffer constructor keeps: the table id, the flags, the
      column count, the column bitmap (None when the event is rejected)
      and the row data (None when it could not be allocated). */
  datatype RowsEvent = RowsEvent(tableId: nat, flags: nat, width: nat,
                                 cols: Option<seq<byte>>, rows: Option<seq<byte>>)

  /** The bytes the constructor reads before any check: the table id
      and flags, and the length-encoded column count after the
      post-header. */
  predicate HeaderReadable(buf: seq<byte>, commonHeaderLen: nat, postHeaderLen: nat)
  {
    var varStart := commonHeaderLen + postHeaderLen;
    commonHeaderLen + RwMapIdOffset + (if postHeaderLen == 6 then 6 else RwFlagsOffset + 2) <= |buf| &&
    varStart < |buf| && varStart + NetFieldWidth(buf[varStart]) <= |buf|
  }

  /** Whether the column bitmap of a `width`-column event fits in the
      `avail` bytes after the column count: it takes (width + 7) / 8 bytes. */
  predicate BitmapFits(avail: nat, width: nat)
  {
    (width + 7) / 8 <= avail
  }

  /** The guard as the constructor writes it, comparing the column count
      itself with the bytes left. */
  predicate BitmapFitsAsWritten(avail: nat, width: nat)
  {
    width <= avail
  }

  /** The buffer constructor of Old_rows_log_event over the event
      `buf` (event_len == |buf|): a post-header of length 6 carries a
      four-byte table id with the flags right after it, any other a
      six-byte id with the flags at RW_FLAGS_OFFSET. `bitmapInitOk` and
      `rowsAllocOk` are the outcomes of my_bitmap_init and my_malloc. */
  function DecodeRowsEvent(buf: seq<byte>, commonHeaderLen: nat, postHeaderLen: nat,
                           bitmapInitOk: bool, rowsAllocOk: bool): (ev: RowsEvent)
    requires HeaderReadable(buf, commonHeaderLen, postHeaderLen)
    ensures postHeaderLen == 6 ==> ev.tableId < 0x1_0000_0000
    ensures ev.tableId < 0x1_0000_0000_0000 && ev.flags < 0x1_0000
    ensures ev.cols.Some? ==> |ev.cols.value| == (ev.width + 7) / 8
    ensures ev.rows.Some? ==>
              ev.cols.Some? && |ev.rows.value| <= |buf| - commonHeaderLen - postHeaderLen - 1 - |ev.cols.value|
    ensures ev.width == NetFieldLength(buf, commonHeaderLen + postHeaderLen).0
    ensures ev.cols.None? <==>
              !BitmapFits(|buf| - NetFieldLength(buf, commonHeaderLen + postHeaderLen).1, ev.width) || !bitmapInitOk
    ensures ev.rows.None? <==> ev.cols.None? || !rowsAllocOk
  {
    var post := commonHeaderLen + RwMapIdOffset;
    var tableId := if postHeaderLen == 6 then Uint4Korr(buf, post) else Uint6Korr(buf, post);
    var flags := Uint2Korr(buf, if postHeaderLen == 6 then post + 4 else post + RwFlagsOffset);
    var (width, afterWidth) := NetFieldLength(buf, commonHeaderLen + postHeaderLen);
    if !BitmapFits(|buf| - afterWidth, width) || !bitmapInitOk then
      RowsEvent(tableId, flags, width, None, None)
    else
      var rowsAt := afterWidth + (width + 7) / 8;
      RowsEvent(tableId, flags, width, Some(buf[afterWidth..rowsAt]),
                if rowsAllocOk then Some(buf[rowsAt..]) else None)
  }

  /** What write_data_header and write_data_body put after the common
      header: the six-byte table id, the flags, the column count, the
      bitmap and the rows. */
  function EncodeRowsEvent(tableId: nat, flags: nat, width: nat, cols: seq<byte>, rows: seq<byte>): (s: seq<byte>)
    requires tableId < 0x1_0000_0000_0000 && flags < 0x1_0000 && width < 0x1_0000_0000_0000_0000
    ensures |s| == RowsHeaderLen + |NetStoreLength(width)| + |cols| + |rows|
  {
    Int6Store(tableId) + Int2Store(flags) + NetStoreLength(width) + cols + rows
  }

  /** Decoding an encoded event with the standard post-header gives
      back its table id, flags, column count, bitmap and rows. */
  lemma DecodeEncoded(common: seq<byte>, tableId: nat, flags: nat, width: nat, cols: seq<byte>, rows: seq<byte>)
    requires tableId < 0x1_0000_0000_0000 && flags < 0x1_0000 && width < 0x1_0000_0000
    requires |cols| == (width + 7) / 8
    ensures HeaderReadable(common + EncodeRowsEvent(tableId, flags, width, cols, rows), |common|, RowsHeaderLen)
    ensures DecodeRowsEvent(common + EncodeRowsEvent(tableId, flags, width, cols, rows), |common|, RowsHeaderLen, true, true)
         == RowsEvent(tableId, flags, width, Some(cols), Some(rows))
  {
    var c := |common|;
    var id, fl, w := Int6Store(tableId), Int2Store(flags), NetStoreLength(width);
    var buf := common + EncodeRowsEvent(tableId, flags, width, cols, rows);
    assert buf == common + id + fl + w + cols + rows;
    assert buf[c..c + 6] == id;
    assert buf[c + 6..c + 8] == fl;
    assert buf[c + 8..c + 8 + |w|] == w;
    KorrAt(buf, c, id);
    KorrAt(buf, c + 6, fl);
    NetLengthRoundTrip(buf, c + 8, width);
    var afterWidth := c + 8 + |w|;
    assert buf[afterWidth..afterWidth + |cols|] == cols;
    assert buf[afterWidth + |cols|..] == rows;
  }

  /** The post-header of the 4-byte table id variant: write_data_header's
      debug branch stores the id in four bytes and the flags right after. */
  function EncodeShortHeader(tableId: nat, flags: nat): (s: seq<byte>)
    requires tableId < 0x1_0000_0000 && flags < 0x1_0000
    ensures |s| == 6
  {
    Int4Store(tableId) + Int2Store(flags)
  }

  /** Decoding an event with the six-byte post-header gives back its
      four-byte table id, its flags, column count, bitmap and rows. */
  lemma DecodeShortHeader(common: seq<byte>, tableId: nat, flags: nat, width: nat, cols: seq<byte>, rows: seq<byte>)
    requires tableId < 0x1_0000_0000 && flags < 0x1_0000 && width < 0x1_0000_0000
    requires |cols| == (width + 7) / 8
    ensures var buf := common + EncodeShortHeader(tableId, flags) + NetStoreLength(width) + cols + rows;
            HeaderReadable(buf, |common|, 6) &&
            DecodeRowsEvent(buf, |common|, 6, true, true) == RowsEvent(tableId, flags, width, Some(cols), Some(rows))
  {
    var c := |common|;
    var id, fl, w := Int4Store(tableId), Int2Store(flags), NetStoreLength(width);
    var buf := common + EncodeShortHeader(tableId, flags) + w + cols + rows;
    assert buf == common + id + fl + w + cols + rows;
    assert buf[c..c + 4] == id;
    assert buf[c + 4..c + 6] == fl;
    assert buf[c + 6..c + 6 + |w|] == w;
    KorrAt(buf, c, id);
    KorrAt(buf, c + 4, fl);
    NetLengthRoundTrip(buf, c + 6, width);
    var afterWidth := c + 6 + |w|;
    assert buf[afterWidth..afterWidth + |cols|] == cols;
    assert buf[afterWidth + |cols|..] == rows;
  }

  /** The guard as written rejects a complete event: sixteen columns
      take two bitmap bytes, but the guard asks for sixteen. */
  lemma BitmapGuardRejectsComplete()
    ensures var buf := EncodeRowsEvent(1, 0, 16, [0xFF, 0xFF], [0, 0]);
            var afterWidth := RowsHeaderLen + 1;
            BitmapFits(|buf| - afterWidth, 16) && !BitmapFitsAsWritten(|buf| - afterWidth, 16)
  {
    var buf := EncodeRowsEvent(1, 0, 16, [0xFF, 0xFF], [0, 0]);
    assert NetStoreLength(16) == [16];
    assert |buf| == 13;
  }

  /* ---------------------------------------------------------------- */
  /* get_data_size                                                     */
  /* ---------------------------------------------------------------- */

  /** get_data_size as written: the post-header, the bitmap, the stored
      length of the bitmap's byte count, and the rows so far. */
  function GetDataSizeAsWritten(width: nat, rowsLen: nat): (size: nat)
    requires width < 0x1_0000_0000_0000_0000
    ensures size <= GetDataSize(width, rowsLen)
    ensures width < 251 ==> size == GetDataSize(width, rowsLen)
  {
    NetStoreLengthGrows((width + 7) / 8, width);
    RowsHeaderLen + (width + 7) / 8 + |NetStoreLength((width + 7) / 8)| + rowsLen
  }

  /** A larger number never takes fewer bytes to store. */
  lemma NetStoreLengthGrows(a: nat, b: nat)
    requires a <= b < 0x1_0000_0000_0000_0000
    ensures |NetStoreLength(a)| <= |NetStoreLength(b)|
  {
  }

  /** get_data_size with the stored length of the column count, which
      is what write_data_body writes. */
  function GetDataSize(width: nat, rowsLen: nat): (size: nat)
    requires width < 0x1_0000_0000_0000_0000
    ensures RowsHeaderLen + (width + 7) / 8 + rowsLen + 1 <= size <= RowsHeaderLen + (width + 7) / 8 + rowsLen + 9
    ensures width < 251 <==> size == RowsHeaderLen + (width + 7) / 8 + rowsLen + 1
  {
    RowsHeaderLen + (width + 7) / 8 + |NetStoreLength(width)| + rowsLen
  }

  /** The reported size is the length of what the event writes after
      the common header. */
  lemma DataSizeIsEncodedLength(tableId: nat, flags: nat, width: nat, cols: seq<byte>, rows: seq<byte>)
    requires tableId < 0x1_0000_0000_0000 && flags < 0x1_0000 && width < 0x1_0000_0000_0000_0000
    requires |cols| == (width + 7) / 8
    ensures |EncodeRowsEvent(tableId, flags, width, cols, rows)| == GetDataSize(width, |rows|)
  {
  }

  /** With 2000 columns the size as written falls two bytes short: the
      bitmap's 250 bytes store in one byte, the 2000 columns in three. */
  lemma DataSizeAsWrittenShort()
    ensures GetDataSizeAsWritten(2000, 0) + 2 == GetDataSize(2000, 0)
  {
  }

  /* ---------------------------------------------------------------- */
  /* The row buffer                                                    */
  /* ---------------------------------------------------------------- */

  /** The allocation do_add_row_data asks for: the rows so far and the
      new row, rounded up to whole blocks. */
  function NewAlloc(curSize: nat, length: nat): (r: nat)
    ensures r % BlockSize == 0
    ensures curSize + length <= r < curSize + length + BlockSize
  {
    BlockSize * ((curSize + length + BlockSize - 1) / BlockSize)
  }

  class OldRowsLogEvent {
    var tableId: nat
    var flags: nat
    var width: nat
    var cols: Option<seq<byte>>
    /** m_rows_buf .. m_rows_end */
    var rowsBuf: array<byte>
    /** m_rows_cur - m_rows_buf */
    var rowsCur: nat
    var rowCount: nat

    ghost predicate Valid()
      reads this
    {
      rowsCur <= rowsBuf.Length
    }

    /** The row data appended or received so far. */
    ghost function Rows(): seq<byte>
      reads this, rowsBuf
      requires Valid()
    {
      rowsBuf[..rowsCur]
    }

    /** The buffer constructor: the decoded fields, and the received rows
      copied into a buffer they fill exactly (none when my_malloc
      fails). */
    constructor FromBuffer(buf: seq<byte>, commonHeaderLen: nat, postHeaderLen: nat,
                           bitmapInitOk: bool, rowsAllocOk: bool)
      requires HeaderReadable(buf, commonHeaderLen, postHeaderLen)
      ensures Valid() && rowCount == 0
      ensures var ev := DecodeRowsEvent(buf, commonHeaderLen, postHeaderLen, bitmapInitOk, rowsAllocOk);
              tableId == ev.tableId && flags == ev.flags && width == ev.width && cols == ev.cols &&
              Rows() == (if ev.rows.Some? then ev.rows.value else []) &&
              rowsCur == rowsBuf.Length
    {
      var ev := DecodeRowsEvent(buf, commonHeaderLen, postHeaderLen, bitmapInitOk, rowsAllocOk);
      tableId, flags, width, cols := ev.tableId, ev.flags, ev.width, ev.cols;
      rowCount := 0;
      var rows := if ev.rows.Some? then ev.rows.value else [];
      var a := new byte[|rows|](_ => 0);
      Put(a, 0, rows);
      rowsBuf := a;
      rowsCur := |rows|;
      new;
      assert rowsBuf[..rowsCur] == rowsBuf[..];
    }

    /** do_add_row_data: appends one row, first growing the buffer to
      NewAlloc when the room left is not more than the row; a failed
      reallocation returns HA_ERR_OUT_OF_MEM and changes nothing. */
    method AddRowData(row: seq<byte>, reallocOk: bool) returns (err: int)
      requires Valid()
      modifies this, rowsBuf
      ensures Valid()
      ensures tableId == old(tableId) && flags == old(flags) && width == old(width) && cols == old(cols)
      ensures var grow := old(rowsBuf.Length) - old(rowsCur) <= |row|;
              if grow && !reallocOk then
                err == HaErrOutOfMem && rowsBuf == old(rowsBuf) && rowsBuf[..] == old(rowsBuf[..]) &&
                rowsCur == old(rowsCur) && rowCount == old(rowCount)
              else
                err == 0 && Rows() == old(Rows()) + row && rowCount == old(rowCount) + 1 &&
                rowsBuf.Length == (if grow then NewAlloc(old(rowsCur), |row|) else old(rowsBuf.Length)) &&
                (grow ==> fresh(rowsBuf))
    {
      ghost var before := Rows();
      if rowsBuf.Length - rowsCur <= |row| {
        if !reallocOk {
          return HaErrOutOfMem;
        }
        var newBuf := new byte[NewAlloc(rowsCur, |row|)](_ => 0);
        Put(newBuf, 0, rowsBuf[..]);
        assert newBuf[..rowsCur] == before;
        rowsBuf := newBuf;
      }
      assert rowsBuf[..rowsCur] == before;
      Put(rowsBuf, rowsCur, row);
      assert rowsBuf[..rowsCur + |row|] == before + row;
      rowsCur := rowsCur + |row|;
      rowCount := rowCount + 1;
      err := 0;
    }
  }
}
