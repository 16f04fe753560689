/**
  The write-ahead logger of src/wal_logger.hpp.

  A record is written as four fields with no separator:
    [key length: 8 bytes][key bytes][value length: 8 bytes][value bytes]
  A length is a size_t (8 bytes on x86-64) in the machine's native byte
  order, which is little-endian there.  The file is modelled as the
  sequence of bytes written so far.
 */
module Wal {
  import opened Wrappers

  newtype uint8 = x: int | 0 <= x < 0x100

  /** sizeof(size_t) */
  const LENGTH_FIELD_SIZE: nat := 8

  /** One more than the largest size_t, 2^64. */
  const SIZE_T_LIMIT: nat := 0x1_0000_0000_0000_0000

  /** A std::string: a byte string whose size() fits in a size_t. */
  type Str = s: seq<uint8> | |s| < SIZE_T_LIMIT

  /** One logged mutation, the (key, value) pair handed to log_operation. */
  datatype LogEntry = LogEntry(key: Str, value: Str)

  /** The bytes of a text, one per character: its low byte, which is its byte for ASCII text. */
  function Ascii(s: string): (r: Str)
    requires |s| < SIZE_T_LIMIT
    ensures |r| == |s|
    ensures forall i :: 0 <= i < |s| ==> r[i] as int == s[i] as int % 0x100
  {
    seq(|s|, i requires 0 <= i < |s| => (s[i] as int % 0x100) as uint8)
  }

  // ---------------------------------------------------------------------
  // Little-endian unsigned integers

  function Pow256(w: nat): (r: nat)
    ensures r >= 1
  {
    if w == 0 then 1 else 256 * Pow256(w - 1)
  }

  lemma Pow256OfLengthField()
    ensures Pow256(LENGTH_FIELD_SIZE) == SIZE_T_LIMIT
  {
  }

  /** The w low-order bytes of n, least significant first. */
  function EncodeLE(n: nat, w: nat): (r: seq<uint8>)
    ensures |r| == w
  {
    if w == 0 then [] else [(n % 256) as uint8] + EncodeLE(n / 256, w - 1)
  }

  /** The unsigned number whose little-endian bytes are bs. */
  function DecodeLE(bs: seq<uint8>): (n: nat)
    ensures n < Pow256(|bs|)
  {
    if bs == [] then 0 else bs[0] as nat + 256 * DecodeLE(bs[1..])
  }

  lemma {:induction false} DecodeEncodeLE(n: nat, w: nat)
    requires n < Pow256(w)
    ensures DecodeLE(EncodeLE(n, w)) == n
  {
    if w > 0 {
      var r := EncodeLE(n, w);
      assert r[1..] == EncodeLE(n / 256, w - 1);
      assert n / 256 < Pow256(w - 1);
      DecodeEncodeLE(n / 256, w - 1);
    }
  }

  lemma {:induction false} EncodeDecodeLE(bs: seq<uint8>)
    ensures EncodeLE(DecodeLE(bs), |bs|) == bs
  {
    if bs != [] {
      var n := DecodeLE(bs);
      assert n % 256 == bs[0] as nat && n / 256 == DecodeLE(bs[1..]);
      EncodeDecodeLE(bs[1..]);
    }
  }

  /** A size_t length field as log_operation writes it. */
  function EncodeLength(n: nat): (r: seq<uint8>)
    requires n < SIZE_T_LIMIT
    ensures |r| == LENGTH_FIELD_SIZE
    ensures DecodeLE(r) == n
  {
    Pow256OfLengthField();
    DecodeEncodeLE(n, LENGTH_FIELD_SIZE);
    EncodeLE(n, LENGTH_FIELD_SIZE)
  }

  // ---------------------------------------------------------------------
  // Records

  /** The bytes log_operation appends for one entry. */
  function EncodeRecord(e: LogEntry): (r: seq<uint8>)
    ensures |r| == 2 * LENGTH_FIELD_SIZE + |e.key| + |e.value|
  {
    EncodeLength(|e.key|) + e.key + EncodeLength(|e.value|) + e.value
  }

  /** The contents of a log file holding the records of es, in order. */
  function EncodeLog(es: seq<LogEntry>): (r: seq<uint8>)
  {
    if es == [] then [] else EncodeRecord(es[0]) + EncodeLog(es[1..])
  }

  /**
    Reads one record from the front of bs: the entry and the number of
    bytes it occupies, or None when bs does not start with a whole record.
   */
  function DecodeRecord(bs: seq<uint8>): (r: Option<(LogEntry, nat)>)
    ensures r.Some? ==> 2 * LENGTH_FIELD_SIZE <= r.value.1 <= |bs|
  {
    if |bs| < LENGTH_FIELD_SIZE then None
    else
      var kLen := DecodeLE(bs[..LENGTH_FIELD_SIZE]);
      var vStart := LENGTH_FIELD_SIZE + kLen + LENGTH_FIELD_SIZE;
      if |bs| < vStart then None
      else
        var vLen := DecodeLE(bs[LENGTH_FIELD_SIZE + kLen .. vStart]);
        if |bs| < vStart + vLen then None
        else
          Pow256OfLengthField();
          Some((LogEntry(bs[LENGTH_FIELD_SIZE .. LENGTH_FIELD_SIZE + kLen], bs[vStart .. vStart + vLen]),
                vStart + vLen))
  }

  /**
    A model reader for the log file: the records of bs in file order, or
    None when bs is not a whole number of records.
   */
  function DecodeLog(bs: seq<uint8>): (r: Option<seq<LogEntry>>)
    decreases |bs|
  {
    if bs == [] then Some([])
    else
      match DecodeRecord(bs)
      case None => None
      case Some((e, n)) =>
        match DecodeLog(bs[n..])
        case None => None
        case Some(rest) => Some([e] + rest)
  }

  // ---------------------------------------------------------------------
  // Properties of the record layout

  /** Each length field holds the size of the field that follows it. */
  lemma LengthFieldsDescribeFields(e: LogEntry)
    ensures var r, k := EncodeRecord(e), |e.key|;
      && DecodeLE(r[..LENGTH_FIELD_SIZE]) == k
      && r[LENGTH_FIELD_SIZE .. LENGTH_FIELD_SIZE + k] == e.key
      && DecodeLE(r[LENGTH_FIELD_SIZE + k .. 2 * LENGTH_FIELD_SIZE + k]) == |e.value|
      && r[2 * LENGTH_FIELD_SIZE + k ..] == e.value
  {
    var r, k := EncodeRecord(e), |e.key|;
    assert r[..LENGTH_FIELD_SIZE] == EncodeLength(k);
    assert r[LENGTH_FIELD_SIZE + k .. 2 * LENGTH_FIELD_SIZE + k] == EncodeLength(|e.value|);
  }

  /** A record is self-delimiting: it decodes from the front of any suffix. */
  lemma RecordSelfDelimiting(e: LogEntry, rest: seq<uint8>)
    ensures DecodeRecord(EncodeRecord(e) + rest) == Some((e, |EncodeRecord(e)|))
  {
    var r := EncodeRecord(e);
    var bs := r + rest;
    var k := |e.key|;
    LengthFieldsDescribeFields(e);
    assert bs[..LENGTH_FIELD_SIZE] == r[..LENGTH_FIELD_SIZE];
    assert bs[LENGTH_FIELD_SIZE .. LENGTH_FIELD_SIZE + k] == e.key;
    assert bs[LENGTH_FIELD_SIZE + k .. 2 * LENGTH_FIELD_SIZE + k]
        == r[LENGTH_FIELD_SIZE + k .. 2 * LENGTH_FIELD_SIZE + k];
    assert bs[2 * LENGTH_FIELD_SIZE + k .. |r|] == e.value;
  }

  /** Whatever DecodeRecord reads is exactly the encoding of what it returns. */
  lemma DecodeRecordSound(bs: seq<uint8>)
    requires DecodeRecord(bs).Some?
    ensures var (e, n) := DecodeRecord(bs).value; bs[..n] == EncodeRecord(e)
  {
    var (e, n) := DecodeRecord(bs).value;
    var kLen := DecodeLE(bs[..LENGTH_FIELD_SIZE]);
    var vStart := LENGTH_FIELD_SIZE + kLen + LENGTH_FIELD_SIZE;
    var vLen := DecodeLE(bs[LENGTH_FIELD_SIZE + kLen .. vStart]);
    EncodeDecodeLE(bs[..LENGTH_FIELD_SIZE]);
    EncodeDecodeLE(bs[LENGTH_FIELD_SIZE + kLen .. vStart]);
    calc {
      bs[..n];
      bs[..LENGTH_FIELD_SIZE] + bs[LENGTH_FIELD_SIZE .. LENGTH_FIELD_SIZE + kLen]
        + bs[LENGTH_FIELD_SIZE + kLen .. vStart] + bs[vStart .. n];
      EncodeLength(kLen) + e.key + EncodeLength(vLen) + e.value;
    }
  }

  lemma {:induction false} EncodeLogAppend(xs: seq<LogEntry>, ys: seq<LogEntry>)
    ensures EncodeLog(xs + ys) == EncodeLog(xs) + EncodeLog(ys)
  {
    if xs != [] {
      assert (xs + ys)[1..] == xs[1..] + ys;
      EncodeLogAppend(xs[1..], ys);
    } else {
      assert xs + ys == ys;
    }
  }

  /** Decoding a log yields exactly the entries written to it, in order. */
  lemma {:induction false} LogRoundTrip(es: seq<LogEntry>)
    ensures DecodeLog(EncodeLog(es)) == Some(es)
  {
    if es != [] {
      var r := EncodeRecord(es[0]);
      RecordSelfDelimiting(es[0], EncodeLog(es[1..]));
      assert (r + EncodeLog(es[1..]))[|r|..] == EncodeLog(es[1..]);
      LogRoundTrip(es[1..]);
      assert [es[0]] + es[1..] == es;
    }
  }

  /** A file decodes only if it is the encoding of the entries it decodes to. */
  lemma {:induction false} DecodeLogSound(bs: seq<uint8>)
    requires DecodeLog(bs).Some?
    ensures bs == EncodeLog(DecodeLog(bs).value)
    decreases |bs|
  {
    if bs != [] {
      var (e, n) := DecodeRecord(bs).value;
      DecodeRecordSound(bs);
      DecodeLogSound(bs[n..]);
      var es := DecodeLog(bs).value;
      assert es[0] == e && es[1..] == DecodeLog(bs[n..]).value;
      assert bs == bs[..n] + bs[n..];
    }
  }

  lemma EncodeLogSingle(e: LogEntry)
    ensures EncodeLog([e]) == EncodeRecord(e)
  {
  }

  /** The four writes of log_operation append one record to f. */
  lemma WritesMakeRecord(f: seq<uint8>, e: LogEntry)
    ensures f + EncodeLength(|e.key|) + e.key + EncodeLength(|e.value|) + e.value == f + EncodeRecord(e)
    ensures |f + EncodeRecord(e)| == |f| + LENGTH_FIELD_SIZE + |e.key| + LENGTH_FIELD_SIZE + |e.value|
    ensures (f + EncodeRecord(e))[..|f|] == f
  {
  }

  lemma LogGrowsByRecord(prefix: seq<uint8>, es: seq<LogEntry>, e: LogEntry)
    ensures prefix + EncodeLog(es) + EncodeRecord(e) == prefix + EncodeLog(es + [e])
  {
    calc {
      prefix + EncodeLog(es) + EncodeRecord(e);
      prefix + (EncodeLog(es) + EncodeRecord(e));
      { EncodeLogAppend(es, [e]); EncodeLogSingle(e); }
      prefix + EncodeLog(es + [e]);
    }
  }

  /** Appending a record to a readable file adds its entry at the end. */
  lemma AppendDecodes(bs: seq<uint8>, e: LogEntry)
    requires DecodeLog(bs).Some?
    ensures DecodeLog(bs + EncodeRecord(e)) == Some(DecodeLog(bs).value + [e])
  {
    var es := DecodeLog(bs).value;
    DecodeLogSound(bs);
    EncodeLogAppend(es, [e]);
    EncodeLogSingle(e);
    LogRoundTrip(es + [e]);
  }

  // ---------------------------------------------------------------------
  // The logger

  /**
    WALLogger: an append-only file handle.  Whether the constructor
    managed to open the file, and what the file already held, come from the
    file system and are inputs here.
   */
  class WalLogger {
    /** log_file.is_open(); nothing in the logger closes the file again. */
    const isOpen: bool
    /** The bytes of the log file. */
    var file: seq<uint8>
    /** What the file held when it was opened. */
    ghost const prefix: seq<uint8>
    /** The entries this handle has written, in call order. */
    ghost var appended: seq<LogEntry>

    ghost predicate Valid()
      reads this
    {
      && file == prefix + EncodeLog(appended)
      && (!isOpen ==> appended == [])
    }

    constructor (wasOpened: bool, existing: seq<uint8>)
      ensures Valid()
      ensures isOpen == wasOpened && file == existing
      ensures prefix == existing && appended == []
    {
      isOpen := wasOpened;
      file := existing;
      prefix := existing;
      appended := [];
    }

    /** log_file.write: appends bs at the end of the file (opened in append mode). */
    method Write(bs: seq<uint8>)
      modifies this`file
      ensures file == old(file) + bs
    {
      file := file + bs;
    }

    /**
      log_operation: appends one record, as four successive writes, when the
      file is open; returns without effect otherwise.
     */
    method LogOperation(key: Str, value: Str)
      requires Valid()
      modifies this
      ensures Valid()
      ensures isOpen ==> file == old(file) + EncodeRecord(LogEntry(key, value))
      ensures isOpen ==> appended == old(appended) + [LogEntry(key, value)]
      ensures isOpen ==> |file| == |old(file)| + LENGTH_FIELD_SIZE + |key| + LENGTH_FIELD_SIZE + |value|
      ensures file[..|old(file)|] == old(file)
      ensures !isOpen ==> file == old(file) && appended == old(appended)
    {
      if !isOpen {
        return;
      }
      ghost var before := file;
      var kLen := |key|;
      var vLen := |value|;
      Write(EncodeLength(kLen));
      Write(key);
      Write(EncodeLength(vLen));
      Write(value);
      ghost var e := LogEntry(key, value);
      WritesMakeRecord(before, e);
      LogGrowsByRecord(prefix, appended, e);
      appended := appended + [e];
    }
  }
}
