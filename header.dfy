/** The archive header: the number of distinct characters, then one entry
    per character of the frequency map in key order, a character byte and
    its count as a 4-byte `int`.  `archive` writes it, `unzip` reads it back
    before decoding.  The count field is one `uint8_t` in the code; a
    two-byte field is modelled beside it as the corrected format. */
module ArchiveHeader {
  import opened Base
  import opened FrequencyTable

  /** The width of the distinct-character count: `Narrow` is the one byte
      `archive` writes, `Wide` a two-byte little-endian field. */
  datatype CountField = Narrow | Wide

  function CountSize(f: CountField): nat {
    if f == Narrow then 1 else 2
  }

  /** The first count the field cannot hold. */
  function CountLimit(f: CountField): nat {
    if f == Narrow then 256 else 65536
  }

  /** The count bytes: `uint8_t size = chars.size()` keeps the low byte. */
  function EncodeCount(n: nat, f: CountField): (r: seq<Byte>)
    ensures |r| == CountSize(f)
  {
    if f == Narrow then [ToByte(n % 256)] else [ToByte(n % 256), ToByte(n / 256 % 256)]
  }

  function DecodeCount(b: seq<Byte>, f: CountField): nat
    requires |b| >= CountSize(f)
  {
    if f == Narrow then Val(b[0]) else Val(b[0]) + 256 * Val(b[1])
  }

  /** A count the field can hold is read back as written. */
  lemma CountRoundTrip(n: nat, f: CountField, rest: seq<Byte>)
    requires n < CountLimit(f)
    ensures DecodeCount(EncodeCount(n, f) + rest, f) == n
  {
    var b := EncodeCount(n, f) + rest;
    if f == Wide {
      assert Val(b[0]) == n % 256 && Val(b[1]) == n / 256 % 256;
      assert n == n % 256 + 256 * (n / 256);
    }
  }

  /** One header entry: `out.write(&ch.first, 1)` and the four bytes of
      `ch.second`. */
  function EntryOf(e: Entry): (r: seq<Byte>)
    ensures |r| == 5
  {
    [CharToByte(e.0)] + EncodeInt32(e.1)
  }

  function EntryBytes(es: seq<Entry>): (r: seq<Byte>)
    ensures |r| == 5 * |es|
  {
    if es == [] then [] else EntryBytes(es[..|es| - 1]) + EntryOf(es[|es| - 1])
  }

  /** The header `archive` writes for the map `chars`. */
  function Header(chars: map<Char, int>, f: CountField): seq<Byte> {
    EncodeCount(|chars|, f) + EntryBytes(Entries(chars))
  }

  lemma HeaderSize(chars: map<Char, int>, f: CountField)
    ensures |Header(chars, f)| == CountSize(f) + 5 * |chars|
  {
    EntriesProperties(chars);
  }

  /** The entry `unzip` reads from the five bytes at `5 * k`. */
  function EntryAt(b: seq<Byte>, k: nat): Entry
    requires 5 * k + 5 <= |b|
  {
    (ByteToChar(b[5 * k]), DecodeInt32(b[5 * k + 1..5 * k + 5]))
  }

  /** The first `n` entries of `b`, in the order they are read. */
  function ParseEntries(b: seq<Byte>, n: nat): (es: seq<Entry>)
    requires 5 * n <= |b|
    ensures |es| == n
  {
    if n == 0 then [] else ParseEntries(b, n - 1) + [EntryAt(b, n - 1)]
  }

  /** A parsed header: its entries and the position where the bit stream
      starts, which is what `decode` reports with `tellg`. */
  datatype Parsed = Parsed(entries: seq<Entry>, end: nat)

  /** The header part of `unzip`: the count, then that many entries.  An
      archive too short for either is a read past the end. */
  function ParseHeader(a: seq<Byte>, f: CountField): (r: Result<Parsed>)
    ensures r.Ok? ==> r.value.end <= |a|
    ensures r.Ok? ==> r.value.end == CountSize(f) + 5 * |r.value.entries|
  {
    if |a| < CountSize(f) then Err(EndOfInput)
    else ParseBody(a[CountSize(f)..], DecodeCount(a, f), CountSize(f))
  }

  /** The `n` entries after the count, which ends at `start`. */
  function ParseBody(body: seq<Byte>, n: nat, start: nat): (r: Result<Parsed>)
    ensures r.Ok? ==> r.value.end == start + 5 * n <= start + |body|
  {
    if |body| < 5 * n then Err(EndOfInput)
    else Ok(Parsed(ParseEntries(body, n), start + 5 * n))
  }

  /** A body long enough for `n` entries parses to exactly those entries. */
  lemma ParseBodyOk(body: seq<Byte>, n: nat, start: nat, es: seq<Entry>)
    requires 5 * n <= |body| && es == ParseEntries(body, n)
    ensures ParseBody(body, n, start) == Ok(Parsed(es, start + 5 * n))
  {
  }

  /** The bytes of entry `k` inside a run of entries. */
  lemma {:induction false} EntryBytesAt(es: seq<Entry>, k: nat)
    requires k < |es|
    ensures EntryBytes(es)[5 * k..5 * k + 5] == EntryOf(es[k])
  {
    var init := es[..|es| - 1];
    var x, y := EntryBytes(init), EntryOf(es[|es| - 1]);
    assert EntryBytes(es) == x + y;
    if k < |es| - 1 {
      EntryBytesAt(init, k);
      assert init[k] == es[k];
      SliceOfPrefix(x, y, 5 * k, 5 * k + 5);
    } else {
      assert (x + y)[5 * k..5 * k + 5] == y;
    }
  }

  lemma SliceOfPrefix(x: seq<Byte>, y: seq<Byte>, i: nat, j: nat)
    requires i <= j <= |x|
    ensures (x + y)[i..j] == x[i..j]
  {
  }

  /** Every count of the entries fits the 4-byte `int` the header stores. */
  predicate Int32Counts(es: seq<Entry>) {
    forall i | 0 <= i < |es| :: IsInt32(es[i].1)
  }

  /** Five bytes that hold an entry with a 32-bit count read back as it. */
  lemma EntryAtRoundTrip(b: seq<Byte>, k: nat, e: Entry)
    requires 5 * k + 5 <= |b| && b[5 * k..5 * k + 5] == EntryOf(e) && IsInt32(e.1)
    ensures EntryAt(b, k) == e
  {
    assert b[5 * k] == EntryOf(e)[0] == CharToByte(e.0);
    assert b[5 * k + 1..5 * k + 5] == EntryOf(e)[1..] == EncodeInt32(e.1);
    CharByteRoundTrip(e.0);
  }

  /** Entries with 32-bit counts are read back as written. */
  lemma {:induction false} ParseEntryBytes(es: seq<Entry>, rest: seq<Byte>, n: nat)
    requires n <= |es|
    requires Int32Counts(es)
    ensures ParseEntries(EntryBytes(es) + rest, n) == es[..n]
  {
    if n > 0 {
      var k := n - 1;
      var x := EntryBytes(es);
      var b := x + rest;
      ParseEntryBytes(es, rest, k);
      assert ParseEntries(b, n) == ParseEntries(b, k) + [EntryAt(b, k)];
      EntryBytesAt(es, k);
      SliceOfPrefix(x, rest, 5 * k, 5 * k + 5);
      assert IsInt32(es[k].1);
      EntryAtRoundTrip(b, k, es[k]);
      TakeLast(es, n);
    }
  }

  lemma TakeLast(es: seq<Entry>, n: nat)
    requires 0 < n <= |es|
    ensures es[..n] == es[..n - 1] + [es[n - 1]]
  {
  }

  /** A header whose count fits the field and whose counts are 32-bit values
      reads back as the entries of the map, whatever follows it, and the bit
      stream starts right after it. */
  lemma HeaderRoundTrip(chars: map<Char, int>, f: CountField, rest: seq<Byte>, a: seq<Byte>)
    requires |chars| < CountLimit(f)
    requires forall c | c in chars :: IsInt32(chars[c])
    requires a == Header(chars, f) + rest
    ensures ParseHeader(a, f).Ok?
    ensures ParseHeader(a, f).value == Parsed(Entries(chars), CountSize(f) + 5 * |chars|)
  {
    EntriesInt32(chars);
    EntriesRoundTrip(Entries(chars), |chars|, f, rest, a);
  }

  /** A count `n` of entries with 32-bit counts, followed by those entries'
      bytes, parses back to the entries. */
  lemma EntriesRoundTrip(es: seq<Entry>, n: nat, f: CountField, rest: seq<Byte>, a: seq<Byte>)
    requires n == |es| < CountLimit(f)
    requires Int32Counts(es)
    requires a == EncodeCount(n, f) + EntryBytes(es) + rest
    ensures ParseHeader(a, f).Ok?
    ensures ParseHeader(a, f).value == Parsed(es, CountSize(f) + 5 * n)
  {
    CountRoundTrip(|es|, f, EntryBytes(es) + rest);
    ParseAllEntries(es, rest);
    ParseAfterCount(EncodeCount(|es|, f), EntryBytes(es), rest, f, es);
  }

  lemma ParseAllEntries(es: seq<Entry>, rest: seq<Byte>)
    requires Int32Counts(es)
    ensures ParseEntries(EntryBytes(es) + rest, |es|) == es
  {
    ParseEntryBytes(es, rest, |es|);
    assert es[..|es|] == es;
  }

  /** Unfolding `ParseHeader` once the count and the entries are known. */
  lemma ParseAfterCount(count: seq<Byte>, x: seq<Byte>, rest: seq<Byte>, f: CountField, es: seq<Entry>)
    requires |count| == CountSize(f)
    requires DecodeCount(count + (x + rest), f) == |es| && 5 * |es| <= |x + rest|
    requires ParseEntries(x + rest, |es|) == es
    ensures ParseHeader(count + x + rest, f).Ok?
    ensures ParseHeader(count + x + rest, f).value == Parsed(es, CountSize(f) + 5 * |es|)
  {
    assert count + x + rest == count + (x + rest);
    assert (count + (x + rest))[CountSize(f)..] == x + rest;
  }

  lemma EntriesInt32(chars: map<Char, int>)
    requires forall c | c in chars :: IsInt32(chars[c])
    ensures |Entries(chars)| == |chars|
    ensures Int32Counts(Entries(chars))
  {
    var es := Entries(chars);
    EntriesProperties(chars);
    forall i | 0 <= i < |es| ensures IsInt32(es[i].1) {
      assert es[i] in es;
    }
  }

  /** With the one-byte field a map of all 256 characters is announced as
      empty: the count wraps to 0 and no entry is read. */
  lemma NarrowWraps(chars: map<Char, int>, rest: seq<Byte>)
    requires |chars| == 256
    ensures ParseHeader(Header(chars, Narrow) + rest, Narrow) == Ok(Parsed([], 1))
  {
    var a := Header(chars, Narrow) + rest;
    assert EncodeCount(|chars|, Narrow) == [0];
    assert a[0] == 0;
  }

  /** A header that fails to parse is one the archive is too short for. */
  lemma ParseHeaderFails(a: seq<Byte>, f: CountField)
    ensures ParseHeader(a, f).Err? <==>
              |a| < CountSize(f) || |a| < CountSize(f) + 5 * DecodeCount(a, f)
    ensures ParseHeader(a, f).Err? ==> ParseHeader(a, f).error == EndOfInput
  {
  }
}
