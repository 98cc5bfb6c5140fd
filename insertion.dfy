/** Creating a log (`new_file`) and inserting a labelled entry in timestamp
    order (`insert_label`).

    Insertion reads the epoch, then walks the records from the first one:
    it reads each record's timestamp, stops in front of the first record
    at or after the new timestamp (or at the end of the file, signalled by a
    short read), and otherwise skips the record by reading its label length
    and seeking over the label. At the stopping point it buffers the rest of
    the file, seeks back, and writes the new record followed by the buffered
    tail.
 */
module Insertion {
  import opened Bytes
  import opened Files
  import opened Timeline
  import opened Seqs

  datatype Status = Inserted | NotAfterEpoch | CorruptLength

  datatype InsertResult = InsertResult(status: Status, contents: seq<byte>)

  datatype ScanResult = At(pos: nat) | BadLength

  datatype ScanStep = Stop | Next | Corrupt

  /** `new_file`: create (truncate) the file and write the epoch. */
  method NewFile(time: int64) returns (file: OpenFile)
    ensures fresh(file)
    ensures file.data == Serialize(Log(time, []))
  {
    file := new OpenFile.Create();
    file.WriteAll(EncodeI64(time));
  }

  /** A new log is exactly 8 bytes, holds no entry, and reads back as the
      given epoch. */
  lemma NewFileIsEmptyLog(time: int64)
    ensures |Serialize(Log(time, []))| == Width
    ensures Parse(Serialize(Log(time, []))) == Some(Log(time, []))
    ensures ReadEpoch(Serialize(Log(time, []))) == time
    ensures WellFormed(Log(time, []))
  {
    ParseSerialize(Log(time, []));
  }

  /** Where the source's loop moves the cursor to skip the label of the
      record at `p`: `seek(SeekFrom::Current(len as i64))` after the length
      field. A length of 2^63 or more turns negative in the cast and moves
      the cursor backwards. */
  function SkipLabelAsWritten(f: seq<byte>, p: nat): (r: int)
    requires p + Width <= |f|
    ensures r < LengthEnd(f, p) <==> LabelLength(f, p) > MaxInt64
  {
    LengthEnd(f, p) + UsizeAsI64(LabelLength(f, p))
  }

  /** A record whose length field reads 2^64 - 16 makes the source's scan
      come back to the same record: its timestamp is still before the new
      one, so `insert_label` loops forever. */
  lemma SkipLabelAsWrittenRevisits()
    ensures var f := EncodeI64(0) + EncodeI64(1) + EncodeU64(TwoTo64 - 16);
      |f| == 3 * Width &&
      DecodeI64(f[Width..2 * Width]) == 1 < 5 &&
      SkipLabelAsWritten(f, Width) == Width
  {
    var f := EncodeI64(0) + EncodeI64(1) + EncodeU64(TwoTo64 - 16);
    assert f[Width..2 * Width] == EncodeI64(1);
    assert ReadAt(f, 2 * Width, Width) == EncodeU64(TwoTo64 - 16);
    I64RoundTrip(1);
    U64RoundTrip(TwoTo64 - 16);
  }

  /** Skipping a record's label as the loop evidently intends: a length
      that the cast would make negative is a corrupt record, so the scan
      stops with an error instead of seeking backwards. */
  function SkipLabel(f: seq<byte>, p: nat): (r: Option<nat>)
    requires p + Width <= |f|
    ensures r.Some? <==> LabelLength(f, p) <= MaxInt64
    ensures r.Some? ==> r.value >= p + Width
  {
    var len := LabelLength(f, p);
    if len <= MaxInt64 then Some(LengthEnd(f, p) + len) else None
  }

  /** A successful skip lands past the label length field as well. */
  lemma SkipLabelPastLength(f: seq<byte>, p: nat)
    requires p + Width <= |f| && SkipLabel(f, p).Some?
    ensures SkipLabel(f, p).value >= LengthEnd(f, p)
  {
  }

  /** The corrected skip refuses exactly the lengths that make the source
      seek backwards, and otherwise lands where the source's seek does. */
  lemma SkipLabelAgrees(f: seq<byte>, p: nat)
    requires p + Width <= |f|
    ensures SkipLabel(f, p).Some? <==> SkipLabelAsWritten(f, p) >= LengthEnd(f, p)
    ensures SkipLabel(f, p).Some? ==> SkipLabel(f, p).value == SkipLabelAsWritten(f, p)
  {
  }

  /** The insertion point the scan finds, starting at the record at `p`. */
  function Scan(f: seq<byte>, p: nat, t: int): (r: ScanResult)
    ensures r.At? ==> r.pos >= p
    decreases |f| - p
  {
    if p + Width > |f| then At(if p <= |f| then |f| else p)
    else if DecodeI64(f[p..p + Width]) >= t then At(p)
    else
      match SkipLabel(f, p)
      case None => BadLength
      case Some(q) => Scan(f, q, t)
  }

  lemma ScanAtEnd(f: seq<byte>, p: nat, t: int)
    requires p + Width > |f|
    ensures Scan(f, p, t) == At(if p <= |f| then |f| else p)
  {
  }

  lemma ScanStops(f: seq<byte>, p: nat, t: int)
    requires p + Width <= |f| && DecodeI64(f[p..p + Width]) >= t
    ensures Scan(f, p, t) == At(p)
  {
  }

  lemma ScanSkips(f: seq<byte>, p: nat, t: int)
    requires p + Width <= |f| && DecodeI64(f[p..p + Width]) < t
    ensures SkipLabel(f, p).None? ==> Scan(f, p, t) == BadLength
    ensures SkipLabel(f, p).Some? ==> Scan(f, p, t) == Scan(f, SkipLabel(f, p).value, t)
  {
  }

  /** The scan only ever stops in front of a record at or after `t`, or
      where no whole timestamp is left to read. */
  lemma {:induction false} ScanStopsAtLater(f: seq<byte>, p: nat, t: int, q: nat)
    requires Scan(f, p, t) == At(q) && q + Width <= |f|
    ensures DecodeI64(f[q..q + Width]) >= t
    decreases |f| - p
  {
    if p + Width > |f| {
      ScanAtEnd(f, p, t);
    } else if DecodeI64(f[p..p + Width]) < t {
      ScanSkips(f, p, t);
      ScanStopsAtLater(f, SkipLabel(f, p).value, t, q);
    } else {
      ScanStops(f, p, t);
    }
  }

  /** What `insert_label` does to the file's bytes. */
  function InsertFile(f: seq<byte>, t: int64, text: seq<byte>): (r: InsertResult)
    requires LabelFits(text)
    ensures r.status != Inserted ==> r.contents == f
    ensures r.status == NotAfterEpoch <==> t <= ReadEpoch(f)
  {
    if ReadEpoch(f) >= t then InsertResult(NotAfterEpoch, f)
    else
      match Scan(f, if |f| < Width then |f| else Width, t)
      case BadLength => InsertResult(CorruptLength, f)
      case At(ip) => InsertResult(Inserted, Splice(f, ip, EncodeEntry(Entry(t, text))))
  }

  /** The skip of a record whose timestamp has just been read: read the
      label length and seek over the label, or report a length the cast
      would make negative. */
  method SkipRecordLabel(file: OpenFile, ghost p: nat) returns (ok: bool)
    requires p + Width <= |file.data| && file.pos == p + Width
    modifies file`pos
    ensures ok <==> SkipLabel(file.data, p).Some?
    ensures ok ==> file.pos == SkipLabel(file.data, p).value
  {
    ghost var f := file.data;
    var sizeCount, sizeBuf := file.Read(Width);
    assert file.pos == LengthEnd(f, p);
    var size := DecodeU64(sizeBuf);
    if size > MaxInt64 {
      return false;
    }
    ok := file.Seek(size);
  }

  /** One pass of the scanning loop of `insert_label` from the record at
      the cursor: stop (cursor at the insertion point), move on to the next
      record, or give up on a corrupt length. */
  method ScanRecord(file: OpenFile, timestamp: int64) returns (step: ScanStep)
    modifies file`pos
    ensures step == Stop ==> Scan(file.data, old(file.pos), timestamp) == At(file.pos)
    ensures step == Corrupt ==> Scan(file.data, old(file.pos), timestamp) == BadLength
    ensures step == Next ==>
      && old(file.pos) + Width <= |file.data| && file.pos > old(file.pos)
      && Scan(file.data, old(file.pos), timestamp) == Scan(file.data, file.pos, timestamp)
  {
    ghost var f := file.data;
    ghost var p := file.pos;
    var count, timeBuf := file.Read(Width);
    if count != Width {
      ScanAtEnd(f, p, timestamp);
      return Stop;
    }
    assert timeBuf == f[p..p + Width];
    if DecodeI64(timeBuf) >= timestamp {
      ScanStops(f, p, timestamp);
      var ok := file.Seek(-(Width as int));
      return Stop;
    }
    ScanSkips(f, p, timestamp);
    var ok := SkipRecordLabel(file, p);
    step := if ok then Next else Corrupt;
  }

  /** The scanning loop of `insert_label`: from the record at the cursor,
      leave the cursor at the insertion point, or report a corrupt length. */
  method SeekInsertionPoint(file: OpenFile, timestamp: int64) returns (found: bool)
    modifies file`pos
    ensures found ==> Scan(file.data, old(file.pos), timestamp) == At(file.pos)
    ensures !found ==> Scan(file.data, old(file.pos), timestamp) == BadLength
  {
    ghost var f := file.data;
    ghost var start := file.pos;
    var step := ScanRecord(file, timestamp);
    while step == Next
      invariant file.data == f
      invariant step == Next ==> Scan(f, file.pos, timestamp) == Scan(f, start, timestamp)
      invariant step == Stop ==> Scan(f, start, timestamp) == At(file.pos)
      invariant step == Corrupt ==> Scan(f, start, timestamp) == BadLength
      decreases step == Next, if file.pos <= |f| then |f| + 1 - file.pos else 0
    {
      step := ScanRecord(file, timestamp);
    }
    found := step == Stop;
  }

  /** The three writes of a record at the cursor: timestamp, label length,
      label. */
  method WriteRecord(file: OpenFile, timestamp: int64, text: seq<byte>)
    requires LabelFits(text)
    modifies file
    ensures file.data == Overwrite(old(file.data), old(file.pos), EncodeEntry(Entry(timestamp, text)))
    ensures file.pos == old(file.pos) + |EncodeEntry(Entry(timestamp, text))|
  {
    ghost var f := file.data;
    ghost var p := file.pos;
    file.WriteAll(EncodeI64(timestamp));
    file.WriteAll(EncodeU64(|text|));
    OverwriteTwice(f, p, EncodeI64(timestamp), EncodeU64(|text|));
    ghost var d := file.data;
    file.WriteAll(text);
    if text == [] {
      OverwriteNothing(d, file.pos);
    }
    OverwriteTwice(f, p, EncodeI64(timestamp) + EncodeU64(|text|), text);
  }

  /** The splice of `insert_label`: buffer the tail, seek back, write the
      record and then the tail. */
  method WriteRecordBeforeTail(file: OpenFile, timestamp: int64, text: seq<byte>)
    requires LabelFits(text)
    modifies file
    ensures file.data == Splice(old(file.data), old(file.pos), EncodeEntry(Entry(timestamp, text)))
  {
    ghost var f := file.data;
    var rest := file.ReadToEnd();
    var ok := file.Seek(-|rest|);
    ghost var ip := file.pos;
    WriteRecord(file, timestamp, text);
    ghost var d := file.data;
    file.WriteAll(rest);
    if rest == [] {
      OverwriteNothing(d, file.pos);
    }
    OverwriteTwice(f, ip, EncodeEntry(Entry(timestamp, text)), rest);
    OverwriteWithTail(f, ip, EncodeEntry(Entry(timestamp, text)));
  }

  /** `insert_label`, on a file just opened for reading and writing. */
  method InsertLabel(file: OpenFile, text: seq<byte>, timestamp: int64) returns (status: Status)
    requires file.pos == 0 && LabelFits(text)
    modifies file
    ensures status == InsertFile(old(file.data), timestamp, text).status
    ensures file.data == InsertFile(old(file.data), timestamp, text).contents
  {
    var count, timeBuf := file.Read(Width);
    if DecodeI64(timeBuf) >= timestamp {
      return NotAfterEpoch;
    }
    var found := SeekInsertionPoint(file, timestamp);
    if !found {
      return CorruptLength;
    }
    WriteRecordBeforeTail(file, timestamp, text);
    status := Inserted;
  }

  /** Reading a whole encoded record: its timestamp decodes to the entry's,
      and skipping its label lands just behind it. */
  lemma ReadEncodedRecord(f: seq<byte>, p: nat, e: Entry, rest: seq<byte>)
    requires LabelFits(e.text) && p <= |f| && f[p..] == EncodeEntry(e) + rest
    ensures p + Width <= |f|
    ensures DecodeI64(f[p..p + Width]) == e.ts
    ensures SkipLabel(f, p) == Some(p + |EncodeEntry(e)|)
  {
    RecordFields(f, p, e, rest);
    assert SkipLabel(f, p) == Some(p + EntryHeader + |e.text|);
  }

  /** When the first entry is before `t`, the entries before the first one
      at or after `t` are that entry and those found in the rest. */
  lemma EncodeFront(es: seq<Entry>, t: int)
    requires Encodable(es) && es != [] && es[0].ts < t
    ensures FirstAtOrAfter(es, t) == 1 + FirstAtOrAfter(es[1..], t)
    ensures |EncodeEntries(es[..FirstAtOrAfter(es, t)])|
         == |EncodeEntry(es[0])| + |EncodeEntries(es[1..][..FirstAtOrAfter(es[1..], t)])|
  {
    TakeFront(es, FirstAtOrAfter(es, t));
  }

  /** The scan's result past a first entry before `t`, in terms of the
      entries before the first one at or after `t`. */
  lemma ScanPastFront(f: seq<byte>, p: nat, es: seq<Entry>, t: int, q: nat)
    requires Encodable(es) && es != [] && es[0].ts < t
    requires q == p + |EncodeEntry(es[0])| && Scan(f, p, t) == Scan(f, q, t)
    requires Scan(f, q, t) == At(q + |EncodeEntries(es[1..][..FirstAtOrAfter(es[1..], t)])|)
    ensures Scan(f, p, t) == At(p + |EncodeEntries(es[..FirstAtOrAfter(es, t)])|)
  {
    EncodeFront(es, t);
  }

  lemma ScanSkipsTo(f: seq<byte>, p: nat, t: int, q: nat)
    requires p + Width <= |f| && DecodeI64(f[p..p + Width]) < t && SkipLabel(f, p) == Some(q)
    ensures Scan(f, p, t) == Scan(f, q, t)
  {
  }

  /** One record of the scan over whole encoded records: it stops in front
      of an entry at or after `t`, and otherwise carries on at the next
      record with the same result. */
  lemma ScanEncodedFront(f: seq<byte>, p: nat, es: seq<Entry>, t: int, q: nat)
    requires Encodable(es) && es != [] && p <= |f| && f[p..] == EncodeEntries(es)
    requires q == p + |EncodeEntry(es[0])|
    ensures es[0].ts >= t ==> Scan(f, p, t) == At(p)
    ensures es[0].ts < t ==> q <= |f| && f[q..] == EncodeEntries(es[1..])
    ensures es[0].ts < t ==> Scan(f, p, t) == Scan(f, q, t)
  {
    var enc := EncodeEntry(es[0]);
    var tail := EncodeEntries(es[1..]);
    assert EncodeEntries(es) == enc + tail;
    ReadEncodedRecord(f, p, es[0], tail);
    if es[0].ts >= t {
      ScanStops(f, p, t);
    } else {
      DropFront(f, p, enc, tail);
      ScanSkipsTo(f, p, t, p + |enc|);
    }
  }

  /** On the bytes of whole entry records the scan stops exactly in front of
      the first entry at or after `t`, or at the end of the file; it never
      reports a corrupt length. */
  lemma {:induction false} ScanEncodedEntries(f: seq<byte>, p: nat, es: seq<Entry>, t: int)
    requires Encodable(es) && p <= |f| && f[p..] == EncodeEntries(es)
    ensures Scan(f, p, t) == At(p + |EncodeEntries(es[..FirstAtOrAfter(es, t)])|)
    decreases |es|
  {
    if es == [] {
      ScanAtEnd(f, p, t);
      TakeNone(es);
    } else {
      var q := p + |EncodeEntry(es[0])|;
      ScanEncodedFront(f, p, es, t, q);
      if es[0].ts >= t {
        TakeNone(es);
      } else {
        ScanEncodedEntries(f, q, es[1..], t);
        ScanPastFront(f, p, es, t, q);
      }
    }
  }

  /** Splicing an encoded entry in front of the `k`-th record of a log's
      file gives the file of the log with the entry at index `k`. */
  lemma SpliceSerialized(log: Log, e: Entry, k: nat)
    requires Encodable(log.entries) && LabelFits(e.text) && k <= |log.entries|
    ensures Encodable(log.entries[..k] + [e] + log.entries[k..])
    ensures Splice(Serialize(log), Width + |EncodeEntries(log.entries[..k])|, EncodeEntry(e))
         == Serialize(Log(log.epoch, log.entries[..k] + [e] + log.entries[k..]))
  {
    var es := log.entries;
    var head := EncodeI64(log.epoch);
    var before, after, rec := EncodeEntries(es[..k]), EncodeEntries(es[k..]), EncodeEntry(e);
    EncodeSplit(es, k);
    EncodeWithEntry(es[..k], e, es[k..]);
    Assoc(head, before, after);
    SpliceBetween(head + before, after, rec);
    Assoc4(head, before, rec, after);
  }

  lemma EncodeSplit(es: seq<Entry>, k: nat)
    requires Encodable(es) && k <= |es|
    ensures Encodable(es[..k]) && Encodable(es[k..])
    ensures EncodeEntries(es) == EncodeEntries(es[..k]) + EncodeEntries(es[k..])
  {
    SplitAt(es, k);
    EncodeEntriesAppend(es[..k], es[k..]);
  }

  lemma EncodeWithEntry(a: seq<Entry>, e: Entry, b: seq<Entry>)
    requires Encodable(a) && Encodable(b) && LabelFits(e.text)
    ensures Encodable(a + [e] + b)
    ensures EncodeEntries(a + [e] + b) == EncodeEntries(a) + EncodeEntry(e) + EncodeEntries(b)
  {
    assert EncodeEntries([e]) == EncodeEntry(e);
    EncodeEntriesAppend(a, [e]);
    EncodeEntriesAppend(a + [e], b);
  }

  /** On a well-formed log, `insert_label` rejects a timestamp at or before
      the epoch and leaves the file alone; any later timestamp is inserted,
      and the file then holds exactly the log with the entry inserted in
      order. */
  lemma InsertIntoLog(f: seq<byte>, log: Log, t: int64, text: seq<byte>)
    requires Parse(f) == Some(log) && LabelFits(text)
    ensures var r := InsertFile(f, t, text);
      (t <= log.epoch ==> r.status == NotAfterEpoch && r.contents == f) &&
      (t > log.epoch ==>
        r.status == Inserted &&
        r.contents == Serialize(Log(log.epoch, InsertEntry(log.entries, Entry(t, text)))))
  {
    SerializeParse(f);
    var head := EncodeI64(log.epoch);
    Halves(f, head, EncodeEntries(log.entries));
    I64RoundTrip(log.epoch);
    assert ReadEpoch(f) == log.epoch;
    if t > log.epoch {
      var k := FirstAtOrAfter(log.entries, t);
      ScanEncodedEntries(f, Width, log.entries, t);
      SpliceSerialized(log, Entry(t, text), k);
    }
  }

  /** An accepted insert changes nothing but the splice: the bytes before
      the insertion point, the epoch among them, are kept; the new record
      follows; then the old tail, unchanged. */
  lemma InsertKeepsHeadAndTail(f: seq<byte>, t: int64, text: seq<byte>)
    requires LabelFits(text) && |f| >= Width
    requires InsertFile(f, t, text).status == Inserted
    ensures Scan(f, Width, t).At?
    ensures var ip := Scan(f, Width, t).pos;
      var rec := EncodeEntry(Entry(t, text));
      var r := InsertFile(f, t, text).contents;
      && Width <= ip
      && r[..ip] == Prefix(f, ip)
      && r[ip..ip + |rec|] == rec
      && r[ip + |rec|..] == Suffix(f, ip)
      && r[..Width] == f[..Width]
      && ReadEpoch(r) == ReadEpoch(f)
  {
    var ip := Scan(f, Width, t).pos;
    var r := InsertFile(f, t, text).contents;
    assert r[..Width] == r[..ip][..Width];
    assert Prefix(f, ip)[..Width] == f[..Width];
  }

  /** An accepted insert into a well-formed log leaves a well-formed log
      with the same epoch and one more entry; the entries before it are the
      old entries in the same order with the new one added. */
  lemma InsertKeepsLogWellFormed(f: seq<byte>, log: Log, t: int64, text: seq<byte>)
    requires Parse(f) == Some(log) && WellFormed(log) && LabelFits(text)
    requires log.epoch < t
    ensures var r := InsertFile(f, t, text);
      r.status == Inserted &&
      Parse(r.contents).Some? &&
      WellFormed(Parse(r.contents).value) &&
      Parse(r.contents).value.epoch == log.epoch &&
      |Parse(r.contents).value.entries| == |log.entries| + 1 &&
      multiset(Parse(r.contents).value.entries) == multiset(log.entries) + multiset{Entry(t, text)}
  {
    var e := Entry(t, text);
    InsertIntoLog(f, log, t, text);
    InsertEntryKeepsWellFormed(log, e);
    InsertEntryPlacement(log.entries, e);
    ParseSerialize(Log(log.epoch, InsertEntry(log.entries, e)));
  }
}
