/** The timeline log as values: an epoch timestamp followed by entries, each a
    timestamp and a label, and the exact byte layout the log file has.

    A file is the 8-byte epoch, then for each entry its 8-byte timestamp, its
    8-byte label length and the label bytes, with no separators. (`label` is
    a Dafny keyword, so an entry's label is the field `text`.)
 */
module Timeline {
  import opened Bytes
  import opened Files
  import opened Seqs

  datatype Option<T> = None | Some(value: T)

  datatype Entry = Entry(ts: int64, text: seq<byte>)

  datatype Log = Log(epoch: int64, entries: seq<Entry>)

  /** Size of an entry's fixed part: timestamp and label length. */
  const EntryHeader: nat := 2 * Width

  /** A label a Rust `String` can hold: at most `i64::MAX` bytes. */
  predicate LabelFits(text: seq<byte>) {
    |text| <= MaxInt64
  }

  predicate Encodable(es: seq<Entry>) {
    forall i :: 0 <= i < |es| ==> LabelFits(es[i].text)
  }

  /** Entry timestamps never decrease from the first entry to the last. */
  predicate Sorted(es: seq<Entry>) {
    forall i, j :: 0 <= i < j < |es| ==> es[i].ts <= es[j].ts
  }

  /** Every entry lies strictly after the epoch. */
  predicate AfterEpoch(epoch: int, es: seq<Entry>) {
    forall i :: 0 <= i < |es| ==> epoch < es[i].ts
  }

  /** The invariant every log written by the program keeps. */
  predicate WellFormed(log: Log) {
    Encodable(log.entries) && Sorted(log.entries) && AfterEpoch(log.epoch, log.entries)
  }

  /** The epoch as both operations read it: the first 8 bytes, zero-padded
      when the file is shorter (the short read is not checked). */
  function ReadEpoch(f: seq<byte>): (r: int64)
    ensures |f| >= Width ==> r == DecodeI64(f[..Width])
  {
    DecodeI64(ReadAt(f, 0, Width))
  }

  /** Cursor position once a record's label length has been read, starting
      with the record at `p` whose timestamp was read in full. */
  function LengthEnd(f: seq<byte>, p: nat): (q: nat)
    requires p + Width <= |f|
    ensures p + Width <= q <= p + EntryHeader && q <= |f|
  {
    if p + EntryHeader <= |f| then p + EntryHeader else |f|
  }

  /** The label length field of the record at `p`, as read into a
      zero-filled buffer. */
  function LabelLength(f: seq<byte>, p: nat): uint64
    requires p + Width <= |f|
  {
    DecodeU64(ReadAt(f, p + Width, Width))
  }

  /** The bytes `insert_label` writes for one entry. */
  function EncodeEntry(e: Entry): (s: seq<byte>)
    requires LabelFits(e.text)
    ensures |s| == EntryHeader + |e.text|
  {
    EncodeI64(e.ts) + EncodeU64(|e.text|) + e.text
  }

  function EncodeEntries(es: seq<Entry>): (s: seq<byte>)
    requires Encodable(es)
  {
    if es == [] then [] else EncodeEntry(es[0]) + EncodeEntries(es[1..])
  }

  /** The whole file holding `log`. */
  function Serialize(log: Log): (s: seq<byte>)
    requires Encodable(log.entries)
  {
    EncodeI64(log.epoch) + EncodeEntries(log.entries)
  }

  /** Strict reading of the entry records: the bytes must be whole records
      and nothing else. */
  function ParseEntries(s: seq<byte>): (r: Option<seq<Entry>>)
    ensures r.Some? ==> Encodable(r.value)
    decreases |s|
  {
    if s == [] then Some([])
    else if |s| < EntryHeader then None
    else
      var n := DecodeU64(s[Width..EntryHeader]);
      if n > MaxInt64 || n > |s| - EntryHeader then None
      else
        match ParseEntries(s[EntryHeader + n..])
        case None => None
        case Some(rest) =>
          Some([Entry(DecodeI64(s[..Width]), s[EntryHeader..EntryHeader + n])] + rest)
  }

  /** Strict reading of a whole log file; `None` when it is not exactly an
      epoch followed by whole entry records. */
  function Parse(f: seq<byte>): (r: Option<Log>)
    ensures r.Some? ==> Encodable(r.value.entries)
  {
    if |f| < Width then None
    else
      match ParseEntries(f[Width..])
      case None => None
      case Some(es) => Some(Log(DecodeI64(f[..Width]), es))
  }

  /** The fields of an encoded record that `f` holds from offset `p` on
      read back as the entry's timestamp, label length and label, and the
      cursor after the length field stands at the label. Both readers of
      the log (`Insertion.ReadEncodedRecord`, `Summary.RecordAtEncoded`)
      build on this. */
  lemma RecordFields(f: seq<byte>, p: nat, e: Entry, rest: seq<byte>)
    requires LabelFits(e.text) && p <= |f| && f[p..] == EncodeEntry(e) + rest
    ensures p + EntryHeader + |e.text| <= |f|
    ensures DecodeI64(f[p..p + Width]) == e.ts
    ensures DecodeU64(f[p + Width..p + EntryHeader]) == |e.text|
    ensures f[p + EntryHeader..p + EntryHeader + |e.text|] == e.text
    ensures LengthEnd(f, p) == p + EntryHeader && LabelLength(f, p) == |e.text|
  {
    FieldsAt(f, p, EncodeI64(e.ts), EncodeU64(|e.text|), e.text, rest);
    I64RoundTrip(e.ts);
    U64RoundTrip(|e.text|);
  }

  lemma {:induction false} EncodeEntriesAppend(a: seq<Entry>, b: seq<Entry>)
    requires Encodable(a) && Encodable(b)
    ensures Encodable(a + b)
    ensures EncodeEntries(a + b) == EncodeEntries(a) + EncodeEntries(b)
  {
    if a == [] {
      assert a + b == b;
    } else {
      assert (a + b)[1..] == a[1..] + b;
      EncodeEntriesAppend(a[1..], b);
    }
  }

  lemma {:induction false} ParseEncodeEntries(es: seq<Entry>)
    requires Encodable(es)
    ensures ParseEntries(EncodeEntries(es)) == Some(es)
  {
    if es != [] {
      var e := es[0];
      var s := EncodeEntries(es);
      var enc := EncodeEntry(e);
      assert s == enc + EncodeEntries(es[1..]);
      assert s[..Width] == EncodeI64(e.ts);
      assert s[Width..EntryHeader] == EncodeU64(|e.text|);
      U64RoundTrip(|e.text|);
      I64RoundTrip(e.ts);
      assert s[EntryHeader..EntryHeader + |e.text|] == e.text;
      assert s[EntryHeader + |e.text|..] == EncodeEntries(es[1..]);
      ParseEncodeEntries(es[1..]);
      assert [e] + es[1..] == es;
    }
  }

  /** What a successful strict parse of a non-empty byte string consists of:
      one whole first record and the parse of the bytes after it. */
  lemma ParseEntriesFirst(s: seq<byte>)
    requires s != [] && ParseEntries(s).Some?
    ensures |s| >= EntryHeader
    ensures var n := DecodeU64(s[Width..EntryHeader]);
      var es := ParseEntries(s).value;
      n <= MaxInt64 && EntryHeader + n <= |s| &&
      ParseEntries(s[EntryHeader + n..]).Some? &&
      es == [Entry(DecodeI64(s[..Width]), s[EntryHeader..EntryHeader + n])]
            + ParseEntries(s[EntryHeader + n..]).value
  {
  }

  lemma {:induction false} EncodeParseEntries(s: seq<byte>)
    requires ParseEntries(s).Some?
    ensures EncodeEntries(ParseEntries(s).value) == s
    decreases |s|
  {
    if s != [] {
      ParseEntriesFirst(s);
      var n := DecodeU64(s[Width..EntryHeader]);
      var es := ParseEntries(s).value;
      var rest := s[EntryHeader + n..];
      var e := Entry(DecodeI64(s[..Width]), s[EntryHeader..EntryHeader + n]);
      EncodeParseEntries(rest);
      assert es[0] == e && es[1..] == ParseEntries(rest).value;
      I64BytesRoundTrip(s[..Width]);
      U64BytesRoundTrip(s[Width..EntryHeader]);
      assert EncodeEntry(e) == s[..EntryHeader + n] by {
        assert s[..EntryHeader + n] == s[..Width] + s[Width..EntryHeader] + s[EntryHeader..EntryHeader + n];
      }
      assert EncodeEntries(es) == EncodeEntry(e) + EncodeEntries(ParseEntries(rest).value);
      assert s == s[..EntryHeader + n] + rest;
    }
  }

  /** Reading back a written log gives the same log. */
  lemma ParseSerialize(log: Log)
    requires Encodable(log.entries)
    ensures Parse(Serialize(log)) == Some(log)
  {
    var f := Serialize(log);
    assert f[..Width] == EncodeI64(log.epoch);
    assert f[Width..] == EncodeEntries(log.entries);
    I64RoundTrip(log.epoch);
    ParseEncodeEntries(log.entries);
  }

  /** A file that parses is exactly the serialisation of what it parses to. */
  lemma SerializeParse(f: seq<byte>)
    requires Parse(f).Some?
    ensures Serialize(Parse(f).value) == f
  {
    EncodeParseEntries(f[Width..]);
    I64BytesRoundTrip(f[..Width]);
    assert f == f[..Width] + f[Width..];
  }

  /** Index of the first entry whose timestamp is at or after `t`, or the
      number of entries when there is none. */
  function FirstAtOrAfter(es: seq<Entry>, t: int): (k: nat)
    ensures k <= |es|
    ensures forall i :: 0 <= i < k ==> es[i].ts < t
    ensures k < |es| ==> es[k].ts >= t
  {
    if es == [] || es[0].ts >= t then 0 else 1 + FirstAtOrAfter(es[1..], t)
  }

  /** The entries after placing `e` before the first entry at or after its
      timestamp. */
  function InsertEntry(es: seq<Entry>, e: Entry): (r: seq<Entry>)
    ensures |r| == |es| + 1
  {
    var k := FirstAtOrAfter(es, e.ts);
    es[..k] + [e] + es[k..]
  }

  /** The new entry sits at the first index whose old entry is at or after
      it: every entry before it is strictly earlier and unchanged, every entry
      after it is an old entry moved up by one (so an entry with an equal
      timestamp ends up behind the new one). */
  lemma InsertEntryPlacement(es: seq<Entry>, e: Entry)
    ensures var k := FirstAtOrAfter(es, e.ts);
      var r := InsertEntry(es, e);
      r[k] == e &&
      (forall i :: 0 <= i < k ==> r[i] == es[i] && r[i].ts < e.ts) &&
      (forall i :: k < i < |r| ==> r[i] == es[i - 1]) &&
      (k < |es| ==> e.ts <= r[k + 1].ts) &&
      multiset(r) == multiset(es) + multiset{e}
  {
    var k := FirstAtOrAfter(es, e.ts);
    var r := InsertEntry(es, e);
    assert es == es[..k] + es[k..];
    calc {
      multiset(r);
      multiset(es[..k]) + multiset{e} + multiset(es[k..]);
      multiset(es[..k] + es[k..]) + multiset{e};
    }
  }

  /** Insertion keeps the log invariant: entries stay sorted, all after the
      epoch, and every label still fits. */
  lemma InsertEntryKeepsWellFormed(log: Log, e: Entry)
    requires WellFormed(log)
    requires log.epoch < e.ts && LabelFits(e.text)
    ensures WellFormed(Log(log.epoch, InsertEntry(log.entries, e)))
  {
    var es := log.entries;
    var k := FirstAtOrAfter(es, e.ts);
    var r := InsertEntry(es, e);
    InsertEntryPlacement(es, e);
    forall i, j | 0 <= i < j < |r| ensures r[i].ts <= r[j].ts {
      if j < k {
        assert r[i] == es[i] && r[j] == es[j];
      } else if i > k {
        assert r[i] == es[i - 1] && r[j] == es[j - 1];
      } else if i == k {
        assert r[j] == es[j - 1] && es[j - 1].ts >= es[k].ts;
      } else if j == k {
      } else {
        assert r[i] == es[i] && r[j] == es[j - 1];
        assert es[k].ts >= e.ts && es[j - 1].ts >= es[k].ts;
      }
    }
    forall i | 0 <= i < |r| ensures log.epoch < r[i].ts && LabelFits(r[i].text) {
      if i < k { assert r[i] == es[i]; } else if i > k { assert r[i] == es[i - 1]; }
    }
  }
}
