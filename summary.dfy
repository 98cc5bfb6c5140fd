/** Summarising a log (`summarize_file`): the time between consecutive
    records is charged to the label of the later record, totals are kept per
    distinct label, and the elapsed time runs from the epoch to the last
    record. Durations are shown as hours and minutes with the seconds
    dropped.
 */
module Summary {
  import opened Bytes
  import opened Files
  import opened Timeline
  import opened Seqs

  /** What `summarize_file` reports: the epoch, the time per label and the
      time from the epoch to the last record. */
  datatype Report = Report(first: int, totals: map<seq<byte>, int>, elapsed: int)

  /** Where the cursor is after `summarize_file` has read the record at `p`:
      past its label, or at the end of the file when the label is cut short. */
  function RecordEnd(f: seq<byte>, p: nat): (r: nat)
    requires p + Width <= |f|
    ensures p + Width <= r <= |f|
  {
    var q := LengthEnd(f, p);
    var len := LabelLength(f, p);
    if len <= |f| - q then q + len else |f|
  }

  /** The record `summarize_file` reads at `p`: the timestamp, and as many
      label bytes as the length field says, zero-padded past the end. */
  function RecordAt(f: seq<byte>, p: nat): (e: Entry)
    requires p + Width <= |f|
    ensures |e.text| == LabelLength(f, p)
    ensures e.ts == DecodeI64(f[p..p + Width])
  {
    Entry(DecodeI64(f[p..p + Width]), ReadAt(f, LengthEnd(f, p), LabelLength(f, p)))
  }

  /** The records as `summarize_file` reads them from offset `p`: it stops
      at the first short read of a timestamp; a short length or label read is
      not checked, so the missing bytes read as zeros. */
  function ReadEntries(f: seq<byte>, p: nat): (es: seq<Entry>)
    decreases |f| - p
  {
    if p + Width > |f| then []
    else [RecordAt(f, p)] + ReadEntries(f, RecordEnd(f, p))
  }

  /** Every record the loop reads takes at least the 8 bytes of its
      timestamp, so the loop ends after at most an eighth of the file. */
  lemma {:induction false} ReadEntriesCount(f: seq<byte>, p: nat)
    requires p <= |f|
    ensures |ReadEntries(f, p)| * Width <= |f| - p
    decreases |f| - p
  {
    if p + Width <= |f| {
      ReadEntriesCount(f, RecordEnd(f, p));
    }
  }

  /** The timestamp the running `prev_time` holds after the records `es`,
      starting from `p0`. */
  function LastTs(p0: int, es: seq<Entry>): (r: int)
    ensures es != [] ==> r == es[|es| - 1].ts
    ensures es == [] ==> r == p0
  {
    if es == [] then p0 else es[|es| - 1].ts
  }

  /** `label_map.entry(k).and_modify(|t| *t += d).or_insert(d)`. */
  function AddTo(m: map<seq<byte>, int>, k: seq<byte>, d: int): (r: map<seq<byte>, int>)
    ensures r.Keys == m.Keys + {k}
    ensures r[k] == (if k in m then m[k] else 0) + d
    ensures forall l :: l in m && l != k ==> r[l] == m[l]
  {
    if k in m then m[k := m[k] + d] else m[k := d]
  }

  /** The label map after the records `es`, starting from `p0`. */
  function Totals(p0: int, es: seq<Entry>): map<seq<byte>, int>
  {
    if es == [] then map[]
    else
      var init := es[..|es| - 1];
      var e := es[|es| - 1];
      AddTo(Totals(p0, init), e.text, e.ts - LastTs(p0, init))
  }

  /** What `summarize_file` computes from the file's bytes. */
  function SummaryOf(f: seq<byte>): Report
  {
    var first := ReadEpoch(f);
    var es := ReadEntries(f, if |f| < Width then |f| else Width);
    Report(first, Totals(first, es), LastTs(first, es) - first)
  }

  lemma TotalsSnoc(p0: int, es: seq<Entry>, e: Entry)
    ensures Totals(p0, es + [e]) == AddTo(Totals(p0, es), e.text, e.ts - LastTs(p0, es))
    ensures LastTs(p0, es + [e]) == e.ts
  {
    assert (es + [e])[..|es|] == es;
  }

  /** The reads of one pass of the loop of `summarize_file`: a record's
      timestamp, its label length and its label, or the end of the log. */
  method ReadRecord(file: OpenFile) returns (found: bool, ts: int64, text: seq<byte>)
    requires file.pos <= |file.data|
    modifies file`pos
    ensures file.pos <= |file.data|
    ensures !found ==> ReadEntries(file.data, old(file.pos)) == []
    ensures found ==>
      && old(file.pos) + Width <= |file.data|
      && file.pos == RecordEnd(file.data, old(file.pos))
      && ReadEntries(file.data, old(file.pos)) == [Entry(ts, text)] + ReadEntries(file.data, file.pos)
  {
    ghost var p := file.pos;
    var count, timeBuf := file.Read(Width);
    if count != Width {
      return false, 0, [];
    }
    ghost var f := file.data;
    assert timeBuf == f[p..p + Width];
    var sizeCount, sizeBuf := file.Read(Width);
    assert file.pos == LengthEnd(f, p);
    var len := DecodeU64(sizeBuf);
    var strCount, strBuf := file.Read(len);
    found, ts, text := true, DecodeI64(timeBuf), strBuf;
    assert Entry(ts, text) == RecordAt(f, p);
  }

  /** Charging one more record keeps the loop's bookkeeping. */
  lemma ChargeRecord(p0: int, seen: seq<Entry>, e: Entry, m: map<seq<byte>, int>, prev: int)
    requires m == Totals(p0, seen) && prev == LastTs(p0, seen)
    ensures AddTo(m, e.text, e.ts - prev) == Totals(p0, seen + [e])
    ensures prev + (e.ts - prev) == LastTs(p0, seen + [e])
  {
    TotalsSnoc(p0, seen, e);
  }

  lemma ReadOneMore(f: seq<byte>, start: nat, seen: seq<Entry>, p: nat, e: Entry, q: nat)
    requires ReadEntries(f, start) == seen + ReadEntries(f, p)
    requires ReadEntries(f, p) == [e] + ReadEntries(f, q)
    ensures ReadEntries(f, start) == (seen + [e]) + ReadEntries(f, q)
  {
  }

  /** The first read of `summarize_file`: the epoch, from a zero-filled
      buffer of 8 bytes. */
  method ReadFirstTime(file: OpenFile) returns (firstTime: int64)
    requires file.pos == 0
    modifies file`pos
    ensures firstTime == ReadEpoch(file.data)
    ensures file.pos == if |file.data| < Width then |file.data| else Width
  {
    var count, timeBuf := file.Read(Width);
    firstTime := DecodeI64(timeBuf);
  }

  /** One pass of the loop of `summarize_file`: read the next record and
      charge the time since the previous one to its label. `seen` holds the
      records charged so far, read from offset `start`. */
  method ChargeNext(file: OpenFile, firstTime: int, ghost start: nat, ghost seen: seq<Entry>,
                    labelMap: map<seq<byte>, int>, prevTime: int)
    returns (found: bool, ghost seen': seq<Entry>, labelMap': map<seq<byte>, int>, prevTime': int)
    requires file.pos <= |file.data|
    requires ReadEntries(file.data, start) == seen + ReadEntries(file.data, file.pos)
    requires labelMap == Totals(firstTime, seen) && prevTime == LastTs(firstTime, seen)
    modifies file`pos
    ensures file.pos <= |file.data|
    ensures found ==>
      && old(file.pos) < file.pos
      && ReadEntries(file.data, start) == seen' + ReadEntries(file.data, file.pos)
    ensures !found ==> ReadEntries(file.data, start) == seen'
    ensures labelMap' == Totals(firstTime, seen') && prevTime' == LastTs(firstTime, seen')
  {
    ghost var p := file.pos;
    var ts, text;
    found, ts, text := ReadRecord(file);
    if found {
      ReadOneMore(file.data, start, seen, p, Entry(ts, text), file.pos);
      ChargeRecord(firstTime, seen, Entry(ts, text), labelMap, prevTime);
      var time := ts - prevTime;
      labelMap' := AddTo(labelMap, text, time);
      prevTime' := prevTime + time;
      seen' := seen + [Entry(ts, text)];
    } else {
      AppendEmpty(seen);
      seen', labelMap', prevTime' := seen, labelMap, prevTime;
    }
  }

  /** The loop of `summarize_file`: charges every remaining record. */
  method ChargeAll(file: OpenFile, firstTime: int) returns (labelMap: map<seq<byte>, int>, prevTime: int)
    requires file.pos <= |file.data|
    modifies file`pos
    ensures labelMap == Totals(firstTime, ReadEntries(file.data, old(file.pos)))
    ensures prevTime == LastTs(firstTime, ReadEntries(file.data, old(file.pos)))
  {
    prevTime := firstTime;
    labelMap := map[];
    ghost var start := file.pos;
    ghost var seen: seq<Entry> := [];
    var found := true;
    while found
      invariant file.pos <= |file.data|
      invariant found ==> ReadEntries(file.data, start) == seen + ReadEntries(file.data, file.pos)
      invariant !found ==> ReadEntries(file.data, start) == seen
      invariant labelMap == Totals(firstTime, seen) && prevTime == LastTs(firstTime, seen)
      decreases found, |file.data| - file.pos
    {
      found, seen, labelMap, prevTime := ChargeNext(file, firstTime, start, seen, labelMap, prevTime);
    }
  }

  /** `summarize_file`, on a file it opens itself. */
  method SummarizeFile(contents: seq<byte>) returns (s: Report)
    ensures s == SummaryOf(contents)
  {
    var file := new OpenFile.Open(contents);
    var firstTime := ReadFirstTime(file);
    var labelMap, prevTime := ChargeAll(file, firstTime);
    s := Report(firstTime, labelMap, prevTime - firstTime);
  }
  /** A whole encoded record reads back as its entry, and the cursor lands
      just behind it. */
  lemma RecordAtEncoded(f: seq<byte>, p: nat, e: Entry, rest: seq<byte>)
    requires LabelFits(e.text) && p <= |f| && f[p..] == EncodeEntry(e) + rest
    ensures p + Width <= |f|
    ensures RecordAt(f, p) == e && RecordEnd(f, p) == p + |EncodeEntry(e)|
  {
    RecordFields(f, p, e, rest);
  }

  /** One step of reading: a record, then the records behind it. */
  lemma ReadEntriesStep(f: seq<byte>, p: nat, e: Entry, q: nat)
    requires p + Width <= |f| && RecordAt(f, p) == e && RecordEnd(f, p) == q
    ensures ReadEntries(f, p) == [e] + ReadEntries(f, q)
  {
  }

  /** On the bytes of whole entry records `summarize_file` reads back
      exactly the entries that were written; fewer than 8 bytes after them
      make a short read that ends the log. */
  lemma {:induction false} ReadEncodedEntries(f: seq<byte>, p: nat, es: seq<Entry>, junk: seq<byte>)
    requires Encodable(es) && |junk| < Width
    requires p <= |f| && f[p..] == EncodeEntries(es) + junk
    ensures ReadEntries(f, p) == es
    decreases |es|
  {
    if es != [] {
      var e := es[0];
      var enc := EncodeEntry(e);
      var tail := EncodeEntries(es[1..]);
      assert EncodeEntries(es) == enc + tail;
      Assoc(enc, tail, junk);
      RecordAtEncoded(f, p, e, tail + junk);
      ReadEntriesStep(f, p, e, p + |enc|);
      DropFront(f, p, enc, tail + junk);
      ReadEncodedEntries(f, p + |enc|, es[1..], junk);
      Cons(es);
    }
  }

  /** The summary of a log's file, even with a cut-off record of fewer than
      8 bytes at its end: the epoch, the totals of the entries and the time
      from the epoch to the last entry. */
  lemma SummaryOfSerialized(log: Log, junk: seq<byte>)
    requires Encodable(log.entries) && |junk| < Width
    ensures SummaryOf(Serialize(log) + junk)
         == Report(log.epoch, Totals(log.epoch, log.entries), LastTs(log.epoch, log.entries) - log.epoch)
  {
    var f := Serialize(log) + junk;
    var head := EncodeI64(log.epoch);
    Assoc(head, EncodeEntries(log.entries), junk);
    Halves(f, head, EncodeEntries(log.entries) + junk);
    I64RoundTrip(log.epoch);
    ReadEncodedEntries(f, Width, log.entries, junk);
  }

  /** The summary of a log file: the epoch it holds, the totals of its
      entries and the time from the epoch to its last entry. */
  lemma SummaryOfLog(f: seq<byte>, log: Log)
    requires Parse(f) == Some(log)
    ensures SummaryOf(f)
         == Report(log.epoch, Totals(log.epoch, log.entries), LastTs(log.epoch, log.entries) - log.epoch)
  {
    SerializeParse(f);
    AppendEmpty(f);
    SummaryOfSerialized(log, []);
  }

  /** The sum of the values of a label map. */
  ghost function MapSum(m: map<seq<byte>, int>): int
    decreases |m.Keys|
  {
    if m == map[] then 0
    else
      var k :| k in m;
      m[k] + MapSum(m - {k})
  }

  /** The sum does not depend on which key is taken out first. */
  lemma {:induction false} MapSumRemove(m: map<seq<byte>, int>, k: seq<byte>)
    requires k in m
    ensures MapSum(m) == m[k] + MapSum(m - {k})
    decreases |m.Keys|
  {
    var j :| j in m && MapSum(m) == m[j] + MapSum(m - {j});
    if j != k {
      assert (m - {j}).Keys == m.Keys - {j};
      assert (m - {k}).Keys == m.Keys - {k};
      MapSumRemove(m - {j}, k);
      MapSumRemove(m - {k}, j);
      assert m - {j} - {k} == m - {k} - {j};
    }
  }

  /** Charging `d` to a label adds `d` to the sum, whether the label is new
      or merges with an existing entry. */
  lemma MapSumAddTo(m: map<seq<byte>, int>, k: seq<byte>, d: int)
    ensures MapSum(AddTo(m, k, d)) == MapSum(m) + d
  {
    var m' := AddTo(m, k, d);
    MapSumRemove(m', k);
    if k in m {
      MapSumRemove(m, k);
      assert m' - {k} == m - {k};
    } else {
      assert m' - {k} == m;
    }
  }

  /** Accounting: the per-label totals add up to the elapsed time. */
  lemma {:induction false} TotalsSum(p0: int, es: seq<Entry>)
    ensures MapSum(Totals(p0, es)) == LastTs(p0, es) - p0
    decreases |es|
  {
    if es == [] {
      assert MapSum(map[]) == 0;
    } else {
      var init := es[..|es| - 1];
      var e := es[|es| - 1];
      TotalsSum(p0, init);
      MapSumAddTo(Totals(p0, init), e.text, e.ts - LastTs(p0, init));
    }
  }

  predicate NonNegative(m: map<seq<byte>, int>) {
    forall l :: l in m ==> m[l] >= 0
  }

  lemma {:induction false} MapSumNonNegative(m: map<seq<byte>, int>)
    requires NonNegative(m)
    ensures MapSum(m) >= 0
    decreases |m.Keys|
  {
    if m != map[] {
      var k :| k in m;
      assert (m - {k}).Keys == m.Keys - {k};
      MapSumRemove(m, k);
      MapSumNonNegative(m - {k});
    }
  }

  /** In a map of non-negative values no value exceeds the sum. */
  lemma MapSumBounds(m: map<seq<byte>, int>, k: seq<byte>)
    requires NonNegative(m) && k in m
    ensures 0 <= m[k] <= MapSum(m)
  {
    MapSumRemove(m, k);
    MapSumNonNegative(m - {k});
  }

  /** On entries in order after `p0` every charge is non-negative. */
  lemma {:induction false} TotalsNonNegative(p0: int, es: seq<Entry>)
    requires Sorted(es) && AfterEpoch(p0, es)
    ensures NonNegative(Totals(p0, es))
    decreases |es|
  {
    if es != [] {
      var init := es[..|es| - 1];
      var e := es[|es| - 1];
      assert Sorted(init) && AfterEpoch(p0, init);
      TotalsNonNegative(p0, init);
      assert e.ts - LastTs(p0, init) >= 0 by {
        if init != [] {
          assert init[|init| - 1] == es[|es| - 2];
        }
      }
    }
  }

  /** On entries in order after `p0` each label's total lies between zero
      and the elapsed time. */
  lemma TotalsBounded(p0: int, es: seq<Entry>)
    requires Sorted(es) && AfterEpoch(p0, es)
    ensures forall l :: l in Totals(p0, es) ==> 0 <= Totals(p0, es)[l] <= LastTs(p0, es) - p0
  {
    TotalsNonNegative(p0, es);
    TotalsSum(p0, es);
    forall l | l in Totals(p0, es) ensures 0 <= Totals(p0, es)[l] <= LastTs(p0, es) - p0 {
      MapSumBounds(Totals(p0, es), l);
    }
  }

  /** On a well-formed log whose last entry is at most `i64::MAX` seconds
      after the epoch, every difference the loop takes and every running
      total stays within `i64`: the unbounded integers of this model agree
      with the source's 64-bit arithmetic. */
  lemma NoOverflow(log: Log, j: nat)
    requires WellFormed(log) && j < |log.entries|
    requires LastTs(log.epoch, log.entries) - log.epoch <= MaxInt64
    ensures var es := log.entries;
      var d := es[j].ts - LastTs(log.epoch, es[..j]);
      var m := Totals(log.epoch, es[..j + 1]);
      && 0 <= d <= MaxInt64
      && forall l :: l in m ==> 0 <= m[l] <= MaxInt64
  {
    var es := log.entries;
    var upto := es[..j + 1];
    assert Sorted(upto) && AfterEpoch(log.epoch, upto);
    TotalsBounded(log.epoch, upto);
    assert LastTs(log.epoch, upto) == es[j].ts <= es[|es| - 1].ts;
    if j > 0 {
      assert es[..j][j - 1] == es[j - 1];
    }
  }

  /** Reference definition: the time charged to label `l` by the records
      `es` read after the timestamp `prev`, record by record from the
      front. */
  function LabelTime(prev: int, es: seq<Entry>, l: seq<byte>): int
    decreases |es|
  {
    if es == [] then 0
    else (if es[0].text == l then es[0].ts - prev else 0) + LabelTime(es[0].ts, es[1..], l)
  }

  lemma {:induction false} LabelTimeSnoc(prev: int, es: seq<Entry>, e: Entry, l: seq<byte>)
    ensures LabelTime(prev, es + [e], l)
         == LabelTime(prev, es, l) + (if e.text == l then e.ts - LastTs(prev, es) else 0)
    decreases |es|
  {
    if es == [] {
      assert LabelTime(e.ts, [], l) == 0;
    } else {
      assert (es + [e])[0] == es[0] && (es + [e])[1..] == es[1..] + [e];
      LabelTimeSnoc(es[0].ts, es[1..], e, l);
      assert LastTs(es[0].ts, es[1..]) == LastTs(prev, es);
    }
  }

  /** A label that no record carries is charged nothing. */
  lemma {:induction false} LabelTimeNone(prev: int, es: seq<Entry>, l: seq<byte>)
    requires l !in Labels(es)
    ensures LabelTime(prev, es, l) == 0
    decreases |es|
  {
    if es != [] {
      assert es[0].text in Labels(es);
      assert Labels(es[1..]) <= Labels(es) by {
        forall x | x in Labels(es[1..]) ensures x in Labels(es) {
          var i :| 0 <= i < |es[1..]| && es[1..][i].text == x;
          assert es[i + 1].text == x;
        }
      }
      LabelTimeNone(es[0].ts, es[1..], l);
    }
  }

  /** The distinct labels of the records. */
  function Labels(es: seq<Entry>): set<seq<byte>>
  {
    set i | 0 <= i < |es| :: es[i].text
  }

  lemma LabelsSnoc(es: seq<Entry>, e: Entry)
    ensures Labels(es + [e]) == Labels(es) + {e.text}
  {
    var r := es + [e];
    forall x | x in Labels(r) ensures x in Labels(es) + {e.text} {
      var i :| 0 <= i < |r| && r[i].text == x;
      if i < |es| { assert es[i] == r[i]; }
    }
    forall x | x in Labels(es) ensures x in Labels(r) {
      var i :| 0 <= i < |es| && es[i].text == x;
      assert r[i] == es[i];
    }
    assert r[|es|] == e;
  }

  /** The label map has one key per distinct label read: records with the
      same label merge into one total. */
  lemma {:induction false} TotalsKeys(p0: int, es: seq<Entry>)
    ensures Totals(p0, es).Keys == Labels(es)
    decreases |es|
  {
    if es != [] {
      var init := es[..|es| - 1];
      var e := es[|es| - 1];
      SplitLast(es);
      TotalsKeys(p0, init);
      LabelsSnoc(init, e);
    }
  }

  /** Each key of the label map holds that label's time by the reference
      definition. */
  lemma {:induction false} TotalsByLabel(p0: int, es: seq<Entry>)
    ensures forall l :: l in Totals(p0, es) ==> Totals(p0, es)[l] == LabelTime(p0, es, l)
    decreases |es|
  {
    if es != [] {
      var init := es[..|es| - 1];
      var e := es[|es| - 1];
      SplitLast(es);
      TotalsByLabel(p0, init);
      TotalsKeys(p0, init);
      forall l | l in Totals(p0, es) ensures Totals(p0, es)[l] == LabelTime(p0, es, l) {
        LabelTimeSnoc(p0, init, e, l);
        if l !in Totals(p0, init) {
          LabelTimeNone(p0, init, l);
        }
      }
    }
  }

  /** Hours and minutes as the summary prints them. */
  datatype Clock = Clock(hours: int, minutes: int)

  /** Rust's `/` on `i64`: the quotient rounded toward zero. */
  function TruncDiv(a: int, b: int): (q: int)
    requires b > 0
    ensures a >= 0 ==> 0 <= a - b * q < b
    ensures a < 0 ==> -b < a - b * q <= 0
  {
    if a >= 0 then a / b else -((-a) / b)
  }

  /** The hours and minutes of a duration of `t` seconds; leftover seconds
      are dropped. */
  function ClockOf(t: int): (c: Clock)
    ensures -60 < c.minutes < 60
    ensures t >= 0 ==> c.hours >= 0 && c.minutes >= 0
    ensures t <= 0 ==> c.hours <= 0 && c.minutes <= 0
  {
    var hours := TruncDiv(t, 3600);
    Clock(hours, TruncDiv(t - hours * 3600, 60))
  }

  /** For a non-negative duration: whole hours, then fewer than 60 whole
      minutes, and less than a minute left over. */
  lemma ClockOfNonNegative(t: int)
    requires t >= 0
    ensures var c := ClockOf(t);
      && 0 <= c.hours && 0 <= c.minutes < 60
      && c.hours * 3600 + c.minutes * 60 <= t < c.hours * 3600 + c.minutes * 60 + 60
  {
  }

  /** Every split into hours, minutes under 60 and seconds under 60 is the
      one `ClockOf` finds. */
  lemma ClockOfSplit(h: nat, m: nat, s: nat)
    requires m < 60 && s < 60
    ensures ClockOf(h * 3600 + m * 60 + s) == Clock(h, m)
  {
  }

  /** Truncation toward zero makes a negative duration the mirror image of
      the positive one. */
  lemma ClockOfNegated(t: int)
    ensures ClockOf(-t) == Clock(-ClockOf(t).hours, -ClockOf(t).minutes)
  {
  }
}
