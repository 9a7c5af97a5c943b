/** The whole archive format as functions: what `zip` writes for a text,
    what `decode` and `unzip` read back from an archive, and the theorems
    that tie them together.  The class methods of the `Huffman` module are
    proved to compute exactly these. */
module Codec {
  import opened Base
  import opened Tree
  import opened FrequencyTable
  import opened TreeBuilder
  import opened BitPacking
  import opened ArchiveHeader

  /** The table `build_table` fills: nothing for a null root. */
  function TableOf(root: Option<Node>): map<Char, seq<bool>> {
    match root
    case None => map[]
    case Some(n) => CodeTable(n)
  }

  /** The archive `zip` writes for the text `s`: the header of its frequency
      map, then the codes of its characters packed into bytes. */
  ghost function ZipSpec(s: seq<Char>, f: CountField): seq<Byte> {
    var freq := Count(s);
    Header(freq, f) + Pack(EncodeBits(s, TableOf(BuildRoot(freq))))
  }

  /** What `decode` emits from the bytes after the header, asked for `cnt`
      characters.  A null root emits nothing; a lone leaf emits its
      character `cnt` times without reading; otherwise the tree is walked
      over the bits, and running out of bytes is a read past the end. */
  function DecodeSpec(root: Option<Node>, bytes: seq<Byte>, cnt: int): (r: Result<seq<Char>>)
    ensures r.Ok? && root.Some? ==> |r.value| == cnt
    ensures root.Some? && root.value.Internal? && cnt < 0 ==> r == Err(EndOfInput)
  {
    match root
    case None => Ok([])
    case Some(n) =>
      if n.Leaf? then
        if cnt < 0 then Err(NegativeTotal) else Ok(seq(cnt, _ => n.ch))
      else
        match DecodeBits(n, n, Unpack(bytes), cnt)
        case None => Err(EndOfInput)
        case Some(s) => Ok(s)
  }

  /** What `unzip` produces from an archive: the decoded text and the size of
      the header it reports. */
  function UnzipSpec(a: seq<Byte>, f: CountField): Result<(seq<Char>, nat)> {
    match ParseHeader(a, f)
    case Err(e) => Err(e)
    case Ok(p) =>
      match DecodeSpec(BuildRoot(ToMap(p.entries)), a[p.end..], Total(p.entries))
      case Err(e) => Err(e)
      case Ok(s) => Ok((s, p.end))
  }

  /** Bytes after those the decoder needs are never read. */
  lemma DecodeIgnoresTrailing(root: Option<Node>, bytes: seq<Byte>, extra: seq<Byte>, cnt: int)
    requires DecodeSpec(root, bytes, cnt).Ok?
    ensures DecodeSpec(root, bytes + extra, cnt) == DecodeSpec(root, bytes, cnt)
  {
    if root.Some? && root.value.Internal? {
      var n := root.value;
      UnpackAppend(bytes, extra);
      DecodeIgnoresTail(n, n, Unpack(bytes), Unpack(extra), cnt);
    }
  }

  /** A character occurs in a text no more often than the text is long. */
  lemma {:induction false} OccurrencesBound(s: seq<Char>, c: Char)
    ensures multiset(s)[c] <= |s|
  {
    if s != [] {
      OccurrencesBound(s[1..], c);
      assert s == [s[0]] + s[1..];
    }
  }

  /** The frequency map of a text shorter than 2^31 holds only 32-bit
      counts. */
  lemma CountsAreInt32(s: seq<Char>)
    requires |s| < TwoTo31
    ensures forall c | c in Count(s) :: IsInt32(Count(s)[c])
  {
    CountIsMultiset(s);
    forall c | c in Count(s) ensures IsInt32(Count(s)[c]) {
      OccurrencesBound(s, c);
    }
  }

  /** Decoding the packed bits `zip` produces, with the count it stores,
      gives the text back. */
  lemma DecodeZipped(s: seq<Char>)
    ensures DecodeSpec(BuildRoot(Count(s)), Pack(EncodeBits(s, TableOf(BuildRoot(Count(s))))), |s|)
         == Ok(s)
  {
    var root := BuildRoot(Count(s));
    if root.None? {
      EmptyText(s);
    } else {
      TextInTree(s);
      DecodeWithTree(root.value, s);
    }
  }

  /** The decoding of a text all of whose characters are leaves of `n`. */
  lemma DecodeWithTree(n: Node, s: seq<Char>)
    requires forall i | 0 <= i < |s| :: s[i] in LeafChars(n)
    ensures DecodeSpec(Some(n), Pack(EncodeBits(s, CodeTable(n))), |s|) == Ok(s)
  {
    if n.Leaf? {
      assert s == seq(|s|, _ => n.ch);
    } else {
      var bits := EncodeBits(s, CodeTable(n));
      UnpackPack(bits);
      DecodeEncode(n, s, Zeros(Padding(|bits|)));
    }
  }

  /** No root means no text. */
  lemma EmptyText(s: seq<Char>)
    requires BuildRoot(Count(s)).None?
    ensures s == []
  {
    BuildRootNone(Count(s));
    assert Count(s) == map[];
    EntriesEmpty(-128);
    CountTotal(s);
  }

  /** Every character of the text is a leaf of its tree. */
  lemma TextInTree(s: seq<Char>)
    requires BuildRoot(Count(s)).Some?
    ensures forall i | 0 <= i < |s| :: s[i] in LeafChars(BuildRoot(Count(s)).value)
  {
    var freq := Count(s);
    CountIsMultiset(s);
    BuildRootLeaves(freq);
    forall i | 0 <= i < |s| ensures s[i] in LeafChars(BuildRoot(freq).value) {
      assert s[i] in freq;
    }
  }

  /** The empty file is archived as the count 0 alone: no entries and no
      payload byte. */
  lemma EmptyArchive(f: CountField)
    ensures ZipSpec([], f) == EncodeCount(0, f)
  {
    EntriesEmpty(-128);
    BuildRootNone(map[]);
    assert Header(map[], f) == EncodeCount(0, f) + [];
  }

  /** A file of one repeated character is archived as its header alone: the
      tree is a lone leaf, whose code is empty, so no payload byte is
      written. */
  lemma SingleSymbolNoPayload(s: seq<Char>, c: Char, f: CountField)
    requires |s| > 0 && forall i | 0 <= i < |s| :: s[i] == c
    ensures ZipSpec(s, f) == Header(Count(s), f)
  {
    var freq := Count(s);
    CountIsMultiset(s);
    assert s[0] in s;
    assert freq.Keys == {c};
    BuildRootSingle(freq, c);
    var t := TableOf(BuildRoot(freq));
    CodeTableProperties(Leaf(c, freq[c]));
    assert t == map[c := []];
    EmptyCodes(s, t);
  }

  /** A text whose characters all have the empty code encodes to no bits. */
  lemma {:induction false} EmptyCodes(s: seq<Char>, t: map<Char, seq<bool>>)
    requires forall i | 0 <= i < |s| :: Lookup(t, s[i]) == []
    ensures EncodeBits(s, t) == []
  {
    if s != [] {
      EmptyCodes(s[1..], t);
    }
  }

  /** `unzip(zip(s))` is `s`, and both report the same header size, for any
      text the count field can describe and the 32-bit `int` can count. */
  lemma RoundTrip(s: seq<Char>, f: CountField)
    requires |s| < TwoTo31
    requires |Distinct(s)| < CountLimit(f)
    ensures UnzipSpec(ZipSpec(s, f), f) == Ok((s, |Header(Count(s), f)|))
  {
    var freq := Count(s);
    var body := Pack(EncodeBits(s, TableOf(BuildRoot(freq))));
    CountKeys(s);
    CountsAreInt32(s);
    var a := ZipSpec(s, f);
    HeaderRoundTrip(freq, f, body, a);
    HeaderSize(freq, f);
    assert a[|Header(freq, f)|..] == body;
    EntriesToMap(freq);
    CountTotal(s);
    DecodeZipped(s);
  }

  /** The integers from `lo` up to `hi`. */
  ghost function Range(lo: int, hi: int): set<int>
    decreases hi - lo
  {
    if lo >= hi then {} else {lo} + Range(lo + 1, hi)
  }

  lemma {:induction false} RangeProperties(lo: int, hi: int)
    requires lo <= hi
    ensures |Range(lo, hi)| == hi - lo
    ensures forall x :: x in Range(lo, hi) <==> lo <= x < hi
    decreases hi - lo
  {
    if lo < hi {
      RangeProperties(lo + 1, hi);
    }
  }

  /** A text has at most 256 distinct characters. */
  lemma DistinctBound(s: seq<Char>)
    ensures |Distinct(s)| <= 256
  {
    var d: set<int> := Distinct(s);
    var all := Range(-128, 128);
    RangeProperties(-128, 128);
    assert d <= all;
    assert all == d + (all - d);
  }

  /** With the two-byte count field every text shorter than 2^31 round-trips,
      the full 256-character alphabet included. */
  lemma WideRoundTrip(s: seq<Char>)
    requires |s| < TwoTo31
    ensures UnzipSpec(ZipSpec(s, Wide), Wide) == Ok((s, |Header(Count(s), Wide)|))
  {
    DistinctBound(s);
    RoundTrip(s, Wide);
  }

  /** With the one-byte count `archive` writes, a text using all 256
      characters unzips to nothing and reports a one-byte header, although
      `zip` wrote 1 + 5 * 256 header bytes. */
  lemma FullAlphabetLoses(s: seq<Char>)
    requires |Distinct(s)| == 256
    ensures |s| > 0
    ensures UnzipSpec(ZipSpec(s, Narrow), Narrow) == Ok(([], 1))
    ensures |Header(Count(s), Narrow)| == 1 + 5 * 256
  {
    var freq := Count(s);
    CountKeys(s);
    HeaderSize(freq, Narrow);
    NarrowWraps(freq, Pack(EncodeBits(s, TableOf(BuildRoot(freq)))));
    BuildRootNone(map[]);
    assert Distinct(s) != {};
  }

  /** The 256 characters in a row, from -128 up. */
  function EveryChar(): (s: seq<Char>)
    ensures |s| == 256 && forall i | 0 <= i < 256 :: s[i] == i - 128
  {
    seq(256, i requires 0 <= i < 256 => (i - 128) as Char)
  }

  /** Such texts exist. */
  lemma EveryCharText()
    ensures |Distinct(EveryChar())| == 256
  {
    var s := EveryChar();
    var d: set<int> := Distinct(s);
    RangeProperties(-128, 128);
    forall x | -128 <= x < 128 ensures x in d {
      assert s[x + 128] == x;
    }
    assert d == Range(-128, 128);
  }
}
