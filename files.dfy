/** An open file as the program uses it: its bytes and a cursor, with the
    four operations `insert_label` and `summarize_file` call (read into a
    zero-filled buffer, relative seek, read to end, write all).

    Reads are exact: a read returns as many bytes as are asked for or as
    remain, whichever is fewer. The cursor may lie past the end of the file
    after a seek; a read there returns nothing, and a non-empty write there
    first fills the gap with zero bytes, as a POSIX file does. An empty
    `write_all` writes nothing and changes nothing.
 */
module Files {
  import opened Bytes

  /** The file's first `p` bytes, padded with zeros when it is shorter. */
  function Prefix(d: seq<byte>, p: nat): (r: seq<byte>)
    ensures |r| == p
    ensures p <= |d| ==> r == d[..p]
  {
    if p <= |d| then d[..p] else d + Zeros(p - |d|)
  }

  /** The file's bytes from offset `q` on; empty when `q` is at or past the end. */
  function Suffix(d: seq<byte>, q: nat): (r: seq<byte>)
    ensures |r| == if q <= |d| then |d| - q else 0
  {
    if q <= |d| then d[q..] else []
  }

  /** What a read of `n` bytes at offset `p` leaves in a zero-filled buffer:
      the bytes the file has there, then zeros once the file runs out. */
  function ReadAt(d: seq<byte>, p: nat, n: nat): (r: seq<byte>)
    ensures |r| == n
    ensures p + n <= |d| ==> r == d[p..p + n]
  {
    Prefix(Suffix(d, p), n)
  }

  /** The file after writing a non-empty `w` at offset `p`: bytes before `p` are kept
      (zero-filled up to `p`), `w` replaces what was there, and whatever lay
      beyond the written range is kept. */
  function Overwrite(d: seq<byte>, p: nat, w: seq<byte>): (r: seq<byte>)
    ensures |r| == if p + |w| <= |d| then |d| else p + |w|
    ensures r[..p] == Prefix(d, p) && r[p..p + |w|] == w
    ensures r[p + |w|..] == Suffix(d, p + |w|)
  {
    Prefix(d, p) + w + Suffix(d, p + |w|)
  }

  /** Two writes one after the other are one write of both. */
  lemma OverwriteTwice(d: seq<byte>, p: nat, a: seq<byte>, b: seq<byte>)
    ensures Overwrite(Overwrite(d, p, a), p + |a|, b) == Overwrite(d, p, a + b)
  {
    var d1 := Overwrite(d, p, a);
    var q := p + |a|;
    assert Prefix(d1, q) == Prefix(d, p) + a;
    if q + |b| <= |d| {
      assert Suffix(d1, q + |b|) == Suffix(d, q + |b|);
    } else {
      assert Suffix(d1, q + |b|) == [];
      assert Suffix(d, q + |b|) == [];
    }
  }

  /** The file with `w` placed at offset `p` and everything from `p` on moved
      behind it; past the end, the gap up to `p` is zero-filled. */
  function Splice(d: seq<byte>, p: nat, w: seq<byte>): (r: seq<byte>)
    ensures |r| == (if p <= |d| then |d| else p) + |w|
    ensures r[..p] == Prefix(d, p) && r[p..p + |w|] == w
    ensures r[p + |w|..] == Suffix(d, p)
  {
    Prefix(d, p) + w + Suffix(d, p)
  }

  /** Writing nothing within the file leaves it as it was. */
  lemma OverwriteNothing(d: seq<byte>, p: nat)
    requires p <= |d|
    ensures Overwrite(d, p, []) == d
  {
    assert d == d[..p] + d[p..];
  }

  /** Splicing at a boundary between two parts puts `w` between them. */
  lemma SpliceBetween(x: seq<byte>, y: seq<byte>, w: seq<byte>)
    ensures Splice(x + y, |x|, w) == x + w + y
  {
    assert (x + y)[..|x|] == x && (x + y)[|x|..] == y;
  }

  /** Writing a record followed by the old tail at `p` is a splice. */
  lemma OverwriteWithTail(d: seq<byte>, p: nat, w: seq<byte>)
    ensures Overwrite(d, p, w + Suffix(d, p)) == Splice(d, p, w)
  {
    assert Suffix(d, p + |w + Suffix(d, p)|) == [];
  }

  class OpenFile {
    var data: seq<byte>
    var pos: nat

    /** `File::open` / `OpenOptions::open`: the cursor starts at offset 0. */
    constructor Open(contents: seq<byte>)
      ensures data == contents && pos == 0
    {
      data := contents;
      pos := 0;
    }

    /** `File::create` followed by nothing: an empty file. */
    constructor Create()
      ensures data == [] && pos == 0
    {
      data := [];
      pos := 0;
    }

    /** How many bytes a read of `n` returns at the current cursor. */
    function Available(n: nat): (k: nat)
      reads this
      ensures k <= n && k <= |Suffix(data, pos)|
      ensures k < n ==> k == |Suffix(data, pos)|
    {
      var left := |Suffix(data, pos)|;
      if n <= left then n else left
    }

    /** `file.read(&mut buf)` into a fresh zero-filled buffer of `n` bytes:
        the first `count` bytes come from the file, the rest stay zero. */
    method Read(n: nat) returns (count: nat, buf: seq<byte>)
      modifies this`pos
      ensures count == old(Available(n))
      ensures buf == ReadAt(old(data), old(pos), n)
      ensures pos == old(pos) + count
    {
      count := Available(n);
      buf := ReadAt(data, pos, n);
      pos := pos + count;
    }

    /** `file.seek(SeekFrom::Current(offset))`; fails, leaving the cursor
        where it was, when the target would be before the start. */
    method Seek(offset: int) returns (ok: bool)
      modifies this`pos
      ensures ok <==> old(pos) + offset >= 0
      ensures pos == if ok then old(pos) + offset else old(pos)
    {
      ok := pos + offset >= 0;
      if ok {
        pos := pos + offset;
      }
    }

    /** `file.read_to_end(&mut buf)` into an empty buffer. */
    method ReadToEnd() returns (rest: seq<byte>)
      modifies this`pos
      ensures rest == Suffix(old(data), old(pos))
      ensures pos == if old(pos) <= |data| then |data| else old(pos)
    {
      rest := Suffix(data, pos);
      if pos <= |data| {
        pos := |data|;
      }
    }

    /** `file.write_all(w)` at the cursor; with nothing to write it never
        touches the file. */
    method WriteAll(w: seq<byte>)
      modifies this
      ensures data == if w == [] then old(data) else Overwrite(old(data), old(pos), w)
      ensures pos == old(pos) + |w|
    {
      if w != [] {
        data := Overwrite(data, pos, w);
        pos := pos + |w|;
      }
    }
  }
}
