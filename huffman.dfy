/** The classes of huffman.h: `HuffTree`, which builds the tree from a
    frequency map, writes the header and decodes a bit stream, and
    `HuffmanArchiver`, which counts, builds the code table and packs the
    codes (`zip`), or reads a header and decodes (`unzip`).  Streams are
    byte sequences: the input a method reads is a parameter, what it writes
    is an out-parameter, and a stream position is an index into the input.
    Each method is proved to compute the corresponding function of the
    `Codec` module. */
module Huffman {
  import opened Base
  import opened Tree
  import opened FrequencyTable
  import opened TreeBuilder
  import opened BitPacking
  import opened ArchiveHeader
  import opened Codec

  /** The bits of the input from position `p` on: those of byte `p`, then
      the rest. */
  lemma UnpackAt(input: seq<Byte>, p: nat)
    requires p < |input|
    ensures Unpack(input[p..]) == BitsOf(input[p]) + Unpack(input[p + 1..])
  {
    assert input[p..][1..] == input[p + 1..];
  }

  /** `std::vector<bool> cur_code`: the path from the root that
      `build_table` extends and shrinks as it walks the tree. */
  class CodeBuffer {
    var bits: seq<bool>

    constructor ()
      ensures bits == []
    {
      bits := [];
    }
  }

  class HuffTree {
    var chars: map<Char, int>
    var root: Option<Node>

    /** `HuffTree()`: no characters and a null root. */
    constructor Empty()
      ensures chars == map[] && root == None
    {
      chars := map[];
      root := None;
    }

    /** `HuffTree(freq)`: a leaf per entry in key order, then the greedy
        merge loop until at most one node is left, which becomes the root. */
    constructor (freq: map<Char, int>)
      ensures chars == freq
      ensures root == BuildRoot(freq)
    {
      var table, leaves := MakeLeaves(freq);
      var nodes := MergeAll(leaves);
      chars := table;
      root := if |nodes| == 0 then None else Some(nodes[0]);
    }

    /** `archive`: the count byte, then each entry of `chars` in key order. */
    method Archive() returns (out: seq<Byte>)
      ensures out == Header(chars, Narrow)
    {
      out := [ToByte(|chars| % 256)];
      var es := Entries(chars);
      var i := 0;
      while i < |es|
        invariant 0 <= i <= |es|
        invariant out == EncodeCount(|chars|, Narrow) + EntryBytes(es[..i])
      {
        EntryStep(out, EncodeCount(|chars|, Narrow), es, i);
        out := out + [CharToByte(es[i].0)] + EncodeInt32(es[i].1);
        i := i + 1;
      }
      assert es[..|es|] == es;
    }

    /** `decode`: emit `cnt` characters from the bytes at `pos`.  Returns the
        position it started from, as `tellg` reports it. */
    method Decode(input: seq<Byte>, pos: nat, cnt: int) returns (res: Result<seq<Char>>, additional: nat)
      requires pos <= |input|
      ensures additional == pos
      ensures res == DecodeSpec(root, input[pos..], cnt)
    {
      additional := pos;
      if root.None? {
        res := Ok([]);
        return;
      }
      var top := root.value;
      if top.Leaf? {
        if cnt < 0 {
          res := Err(NegativeTotal);
          return;
        }
        var out: seq<Char> := [];
        var n := cnt;
        while n != 0
          invariant 0 <= n <= cnt
          invariant out == seq(cnt - n, _ => top.ch)
          decreases n
        {
          out := out + [top.ch];
          n := n - 1;
        }
        res := Ok(out);
        return;
      }
      ghost var target := DecodeBits(top, top, Unpack(input[pos..]), cnt);
      var cur := top;
      var out: seq<Char> := [];
      var n := cnt;
      var p := pos;
      assert target.Some? ==> [] + target.value == target.value;
      while n != 0
        invariant pos <= p <= |input|
        invariant cur.Internal?
        invariant Prepend(out, DecodeBits(top, cur, Unpack(input[p..]), n)) == target
        decreases |input| - p
      {
        if p == |input| {
          res := Err(EndOfInput);
          return;
        }
        var byte := input[p];
        UnpackAt(input, p);
        p := p + 1;
        cur, out, n := DecodeByte(top, cur, byte, out, n, Unpack(input[p..]));
      }
      assert out + [] == out;
      res := Ok(out);
    }
  }

  /** The first loop of the `HuffTree` constructor: one leaf per entry of
      the frequency table, in key order, and a copy of the table. */
  method MakeLeaves(freq: map<Char, int>) returns (table: map<Char, int>, nodes: seq<Node>)
    ensures table == freq
    ensures nodes == Leaves(Entries(freq))
  {
    var es := Entries(freq);
    table := map[];
    nodes := [];
    var i := 0;
    while i < |es|
      invariant 0 <= i <= |es|
      invariant table == ToMap(es[..i])
      invariant nodes == Leaves(es[..i])
    {
      LeafStep(es, i);
      table := table[es[i].0 := es[i].1];
      nodes := nodes + [Leaf(es[i].0, es[i].1)];
      i := i + 1;
    }
    AllLeaves(freq, es);
  }

  lemma AllLeaves(freq: map<Char, int>, es: seq<Entry>)
    requires es == Entries(freq)
    ensures ToMap(es[..|es|]) == freq && Leaves(es[..|es|]) == Leaves(es)
  {
    assert es[..|es|] == es;
    EntriesToMap(freq);
  }

  /** The second loop of the `HuffTree` constructor: while more than one
      node is left, take the two lightest and put back their merge. */
  method MergeAll(leaves: seq<Node>) returns (nodes: seq<Node>)
    ensures nodes == Reduce(leaves)
  {
    nodes := leaves;
    var curSize := |nodes|;
    while curSize > 1
      invariant curSize == |nodes|
      invariant Reduce(nodes) == Reduce(leaves)
      decreases curSize
    {
      ghost var before := nodes;
      var min1, min2;
      nodes, min1 := PopMin(nodes);
      curSize := curSize - 1;
      nodes, min2 := PopMin(nodes);
      nodes := nodes + [Merge(min1, min2)];
      assert nodes == Step(before);
    }
  }

  /** The inner loop of `decode`: walk the tree over the bits of one byte,
      from bit 7 down, until the byte or the count runs out.  Whatever bits
      follow the byte, decoding from the old walk position with them behind
      the byte is the same as decoding from the new position with them
      alone. */
  method DecodeByte(top: Node, cur: Node, byte: Byte, out: seq<Char>, n: int, ghost tail: seq<bool>)
    returns (cur': Node, out': seq<Char>, n': int)
    requires top.Internal? && cur.Internal?
    ensures cur'.Internal?
    ensures Prepend(out', DecodeBits(top, cur', tail, n')) == Prepend(out, DecodeBits(top, cur, BitsOf(byte) + tail, n))
  {
    cur', out', n' := cur, out, n;
    ghost var rest := BitsOf(byte) + tail;
    var i := 7;
    while i >= 0 && n' != 0
      invariant -1 <= i <= 7
      invariant cur'.Internal?
      invariant rest == BitsOf(byte)[7 - i..] + tail
      invariant Prepend(out', DecodeBits(top, cur', rest, n')) == Prepend(out, DecodeBits(top, cur, BitsOf(byte) + tail, n))
      decreases i + 1
    {
      BitsOfAt(byte, i);
      assert rest[0] == Bit(byte, i);
      ghost var rest' := rest[1..];
      assert rest' == BitsOf(byte)[7 - (i - 1)..] + tail;
      cur', out', n' := FollowBit(top, cur', Bit(byte, i), out', n', rest);
      rest := rest';
      i := i - 1;
    }
    if n' != 0 {
      assert BitsOf(byte)[8..] == [];
      assert rest == tail;
    }
  }

  /** One bit of the walk in `decode`: go to the child the bit names; at a
      leaf, output its character, count it off and restart from the root. */
  method FollowBit(top: Node, cur: Node, bit: bool, out: seq<Char>, n: int, ghost rest: seq<bool>)
    returns (cur': Node, out': seq<Char>, n': int)
    requires top.Internal? && cur.Internal? && rest != [] && rest[0] == bit && n != 0
    ensures cur'.Internal?
    ensures Prepend(out', DecodeBits(top, cur', rest[1..], n')) == Prepend(out, DecodeBits(top, cur, rest, n))
  {
    var next := if bit then cur.right else cur.left;
    assert rest == [bit] + rest[1..];
    WalkBit(top, cur, bit, rest[1..], n);
    if next.Leaf? {
      PrependSnoc(out, next.ch, DecodeBits(top, top, rest[1..], n - 1));
      out', cur', n' := out + [next.ch], top, n - 1;
    } else {
      out', cur', n' := out, next, n;
    }
  }

  class HuffmanArchiver {
    var tree: HuffTree?
    var table: map<Char, seq<bool>>

    /** `HuffmanArchiver()`: no tree and an empty table. */
    constructor ()
      ensures tree == null && table == map[]
    {
      tree := null;
      table := map[];
    }

    /** `build_table`: record the path to every leaf below `node`, with
        `cur.bits` as the path to `node`, and leave `cur.bits` as it was. */
    method BuildTable(node: Node, cur: CodeBuffer)
      modifies this`table, cur
      ensures table == old(table) + Codes(node, old(cur.bits))
      ensures cur.bits == old(cur.bits)
      decreases node
    {
      match node
      case Leaf(c, _) =>
        table := table[c := cur.bits];
      case Internal(l, r, _) =>
        ghost var t0 := table;
        ghost var prefix := cur.bits;
        cur.bits := cur.bits + [false];
        BuildTable(l, cur);
        cur.bits := cur.bits[..|cur.bits| - 1];
        assert cur.bits == prefix;
        cur.bits := cur.bits + [true];
        BuildTable(r, cur);
        cur.bits := cur.bits[..|cur.bits| - 1];
        assert cur.bits == prefix;
        UnionAssoc(t0, Codes(l, prefix + [false]), Codes(r, prefix + [true]));
    }

    /** The table step of `zip`: `build_table` from the root with an empty
        path, or nothing for a null root. */
    method FillTable(root: Option<Node>)
      modifies this`table
      ensures table == old(table) + TableOf(root)
    {
      var code := new CodeBuffer();
      if root.Some? {
        BuildTable(root.value, code);
      } else {
        assert table == table + map[];
      }
    }

    /** `zip`: count the characters, build the tree, write the header, build
        the table and pack the codes.  `uninit` is the value the
        uninitialised register `tmp` starts with; it never reaches the
        archive.  Returns the header size, as `tellp` reports it. */
    method Zip(input: seq<Char>, uninit: Byte) returns (out: seq<Byte>, additional: nat)
      requires |input| < TwoTo31
      modifies this
      ensures out == ZipSpec(input, Narrow)
      ensures additional == |Header(Count(input), Narrow)|
      ensures fresh(tree) && tree.chars == Count(input) && tree.root == BuildRoot(Count(input))
      ensures table == old(table) + TableOf(BuildRoot(Count(input)))
    {
      var freq := CountChars(input);
      var t := new HuffTree(freq);
      tree := t;
      var header := t.Archive();
      additional := |header|;
      ghost var before := table;
      FillTable(t.root);
      var body := PackCodes(input, table, uninit);
      ZipOutput(input, before, header, body);
      out := header + body;
    }

    /** `unzip`: read the header, rebuild the tree from its entries and
        decode as many characters as their counts add up to. */
    method Unzip(input: seq<Byte>) returns (res: Result<(seq<Char>, nat)>)
      modifies this`tree
      ensures res == UnzipSpec(input, Narrow)
      ensures table == old(table)
      ensures ParseHeader(input, Narrow).Ok? ==>
                var freq := ToMap(ParseHeader(input, Narrow).value.entries);
                fresh(tree) && tree.chars == freq && tree.root == BuildRoot(freq)
      ensures ParseHeader(input, Narrow).Err? ==> tree == old(tree)
    {
      var header := ReadHeader(input);
      if header.Err? {
        res := Err(header.error);
        return;
      }
      var (freq, sum, p) := header.value;
      var t := new HuffTree(freq);
      // The code stores the tree before decoding with it; `Decode` changes
      // nothing, so storing it afterwards leaves the same state.
      var text, additional := t.Decode(input, p, sum);
      tree := t;
      match text
      case Err(e) => res := Err(e);
      case Ok(s) => res := Ok((s, additional));
    }
  }

  /** The counting loop of `zip`: `freq[ch]++` for every character. */
  method CountChars(input: seq<Char>) returns (freq: map<Char, int>)
    ensures freq == Count(input)
  {
    freq := map[];
    var i := 0;
    while i < |input|
      invariant 0 <= i <= |input|
      invariant freq == Count(input[..i])
    {
      assert input[..i + 1][..i] == input[..i];
      var ch := input[i];
      freq := freq[ch := (if ch in freq then freq[ch] else 0) + 1];
      i := i + 1;
    }
    assert input[..|input|] == input;
  }

  /** The packing loops of `zip`: shift each bit of each character's code
      into the register `tmp`, write it out every eight bits, then shift in
      zero bits until the last byte is full and write it if any was added.
      A character missing from the table has the empty code, as
      `table[ch]` gives. */
  method PackCodes(input: seq<Char>, table: map<Char, seq<bool>>, uninit: Byte) returns (out: seq<Byte>)
    ensures out == Pack(EncodeBits(input, table))
  {
    out := [];
    var tmp := uninit;
    var cnt := 0;
    ghost var done: seq<bool> := [];
    ghost var pending: seq<bool> := [];
    ghost var g := uninit;
    var i := 0;
    while i < |input|
      invariant 0 <= i <= |input|
      invariant Packing(out, tmp, cnt, done, pending, g)
      invariant done + pending == EncodeBits(input[..i], table)
    {
      out, tmp, cnt, done, pending, g := PushCode(Lookup(table, input[i]), out, tmp, cnt, done, pending, g);
      EncodeBitsPrefix(input, i, table);
      i := i + 1;
    }
    assert input[..|input|] == input;
    out := WriteLast(out, tmp, cnt, done, pending, g);
  }

  /** The end of `zip`: shift in zero bits until the register holds a whole
      byte and write it if any bit was shifted in; nothing is written when
      no bit is pending. */
  method WriteLast(out: seq<Byte>, tmp: Byte, cnt: int, ghost done: seq<bool>, ghost pending: seq<bool>, ghost g: Byte)
    returns (out': seq<Byte>)
    requires Packing(out, tmp, cnt, done, pending, g)
    ensures out' == Pack(done + pending)
  {
    var tmp', flag := PadRegister(tmp, cnt, pending, g);
    if flag {
      Pad(done, pending, g);
      out' := out + [tmp'];
    } else {
      assert done + pending == done;
      out' := out;
    }
  }

  /** The padding loop of `zip`: shift zero bits into a register holding
      `cnt` bits until it holds eight; `flag` records whether any was. */
  method PadRegister(tmp: Byte, cnt: int, ghost pending: seq<bool>, ghost g: Byte)
    returns (tmp': Byte, flag: bool)
    requires cnt == |pending| < 8 && tmp == Reg(g, pending)
    ensures flag <==> |pending| > 0
    ensures flag ==> tmp' == Reg(g, pending + Zeros(8 - |pending|))
  {
    tmp' := tmp;
    var cnt' := cnt;
    flag := false;
    assert pending + Zeros(0) == pending;
    PartialByte(cnt');
    while cnt' % 8 != 0
      invariant |pending| <= cnt' <= 8
      invariant cnt' % 8 != 0 <==> 0 < cnt' < 8
      invariant flag <==> cnt' > |pending|
      invariant |pending| == 0 ==> cnt' == 0
      invariant tmp' == Reg(g, pending + Zeros(cnt' - |pending|))
      decreases 8 - cnt'
    {
      tmp' := ShiftInZero(tmp', cnt', pending, g);
      cnt' := cnt' + 1;
      PartialByte(cnt');
      flag := true;
    }
    assert flag ==> cnt' == 8;
  }

  /** `tmp *= 2` on the one-byte register: one more zero bit shifted in. */
  method ShiftInZero(tmp: Byte, cnt: int, ghost pending: seq<bool>, ghost g: Byte) returns (tmp': Byte)
    requires |pending| <= cnt && tmp == Reg(g, pending + Zeros(cnt - |pending|))
    ensures tmp' == Reg(g, pending + Zeros(cnt + 1 - |pending|))
  {
    ghost var k := cnt - |pending|;
    assert pending + Zeros(k + 1) == (pending + Zeros(k)) + [false];
    RegSnoc(g, pending + Zeros(k), false);
    tmp' := tmp as int * 2 % 256;
  }

  /** Writing out a full register starts the next byte afresh: the
      register is the next byte `Pack` makes, whatever `tmp` started as. */
  lemma FlushPacking(out: seq<Byte>, done: seq<bool>, full: seq<bool>, g: Byte)
    requires out == Pack(done) && |done| % 8 == 0 && |full| == 8
    ensures Packing(out + [Reg(g, full)], 0, 0, done + full, [], 0)
  {
    assert Pack(done + full) == Pack(done) + [Reg(g, full)] by {
      PackAppend(done, full);
      RegForgets(g, 0, full);
      assert full[..8] == full;
    }
    EightMore(|done|);
    assert |done + full| == |done| + 8;
  }

  lemma PartialByte(c: int)
    requires 0 <= c <= 8
    ensures c % 8 != 0 <==> 0 < c < 8
  {
  }

  lemma EightMore(n: nat)
    requires n % 8 == 0
    ensures (n + 8) % 8 == 0
  {
  }

  lemma UnionAssoc<K, V>(a: map<K, V>, b: map<K, V>, c: map<K, V>)
    ensures a + b + c == a + (b + c)
  {
  }

  /** The state of `zip`'s register: `out` holds the whole bytes of the
      bits `done`, and `tmp` the `cnt` bits `pending` shifted into `g`. */
  ghost predicate Packing(out: seq<Byte>, tmp: Byte, cnt: int, done: seq<bool>, pending: seq<bool>, g: Byte) {
    out == Pack(done) && |done| % 8 == 0 && cnt == |pending| < 8 && tmp == Reg(g, pending)
  }

  /** The inner loop of `zip`: shift the bits of one code into the
      register, writing it out whenever it holds eight. */
  method PushCode(bits: seq<bool>, out: seq<Byte>, tmp: Byte, cnt: int,
                  ghost done: seq<bool>, ghost pending: seq<bool>, ghost g: Byte)
    returns (out': seq<Byte>, tmp': Byte, cnt': int,
             ghost done': seq<bool>, ghost pending': seq<bool>, ghost g': Byte)
    requires Packing(out, tmp, cnt, done, pending, g)
    ensures Packing(out', tmp', cnt', done', pending', g')
    ensures done' + pending' == done + pending + bits
  {
    out', tmp', cnt', done', pending', g' := out, tmp, cnt, done, pending, g;
    var j := 0;
    while j < |bits|
      invariant 0 <= j <= |bits|
      invariant Packing(out', tmp', cnt', done', pending', g')
      invariant done' + pending' == done + pending + bits[..j]
    {
      assert bits[..j + 1] == bits[..j] + [bits[j]];
      out', tmp', cnt', done', pending', g' := PushBit(bits[j], out', tmp', cnt', done', pending', g');
      j := j + 1;
    }
    assert bits[..|bits|] == bits;
  }

  /** One bit of `zip`'s inner loop: shift it into the register and write
      the register out when it holds eight bits. */
  method PushBit(bit: bool, out: seq<Byte>, tmp: Byte, cnt: int,
                 ghost done: seq<bool>, ghost pending: seq<bool>, ghost g: Byte)
    returns (out': seq<Byte>, tmp': Byte, cnt': int,
             ghost done': seq<bool>, ghost pending': seq<bool>, ghost g': Byte)
    requires Packing(out, tmp, cnt, done, pending, g)
    ensures Packing(out', tmp', cnt', done', pending', g')
    ensures done' + pending' == done + pending + [bit]
  {
    RegSnoc(g, pending, bit);
    ghost var grown := pending + [bit];
    cnt' := cnt + 1;
    tmp' := (2 * tmp as int + BitValue(bit)) % 256;
    assert tmp' == Reg(g, grown);
    if cnt' == 8 {
      FlushPacking(out, done, grown, g);
      out' := out + [tmp'];
      tmp', cnt', done', pending', g' := 0, 0, done + grown, [], 0;
      assert done' + pending' == done + grown;
    } else {
      out', done', pending', g' := out, done, grown, g;
    }
    assert done + grown == done + pending + [bit];
  }

  /** What `unzip` keeps of a parsed header: the frequency map, the sum of
      the counts and the position where the bit stream starts. */
  function Summary(h: Result<Parsed>): Result<(map<Char, int>, int, nat)> {
    match h
    case Err(e) => Err(e)
    case Ok(p) => Ok((ToMap(p.entries), Total(p.entries), p.end))
  }

  /** The header part of `unzip`: the count byte, then that many entries,
      each a character byte and a 4-byte count; `freq` maps each character
      to its count and `sum` adds the counts up.  Running out of bytes is a
      read past the end. */
  method ReadHeader(input: seq<Byte>) returns (res: Result<(map<Char, int>, int, nat)>)
    ensures res == Summary(ParseHeader(input, Narrow))
  {
    if |input| == 0 {
      HeaderTooShort(input);
      return Err(EndOfInput);
    }
    HeaderBody(input);
    res := ReadEntries(input[1..], Val(input[0]), 1);
  }

  /** The loop of `unzip` that reads `size` entries of five bytes each from
      the bytes after the count byte, which ends at `start`, into a map and
      the sum of the counts.  Also gives the position the stream is left at.
      Running out of bytes first is a read past the end. */
  method ReadEntries(body: seq<Byte>, size: nat, start: nat) returns (res: Result<(map<Char, int>, int, nat)>)
    ensures res == Summary(ParseBody(body, size, start))
  {
    var i := 0;
    ghost var es: seq<Entry> := [];
    var sum := 0;
    var freq: map<Char, int> := map[];
    while i < size
      invariant 0 <= i <= size
      invariant 5 * i <= |body|
      invariant es == ParseEntries(body, i)
      invariant sum == Total(es)
      invariant freq == ToMap(es)
    {
      if |body| < 5 * i + 5 {
        return Err(EndOfInput);
      }
      freq, sum, es := ReadEntry(body, i, freq, sum, es);
      i := i + 1;
    }
    BodyRead(body, size, start, es);
    return Ok((freq, sum, start + 5 * size));
  }

  /** Once all `size` entries are in, the summary of the parse is the map and
      the sum of those entries. */
  lemma BodyRead(body: seq<Byte>, size: nat, start: nat, es: seq<Entry>)
    requires 5 * size <= |body| && es == ParseEntries(body, size)
    ensures Summary(ParseBody(body, size, start)) == Ok((ToMap(es), Total(es), start + 5 * size))
  {
    ParseBodyOk(body, size, start, es);
    SummaryOk(ParseBody(body, size, start), es, start + 5 * size);
  }

  lemma SummaryOk(h: Result<Parsed>, es: seq<Entry>, end: nat)
    requires h == Ok(Parsed(es, end))
    ensures Summary(h) == Ok((ToMap(es), Total(es), end))
  {
  }

  /** One iteration of the entry loop of `unzip`: read the character byte
      and the 4-byte count of entry `i`, set `freq[ch] = tmp` and add `tmp`
      to `sum`. */
  method ReadEntry(body: seq<Byte>, i: nat, freq: map<Char, int>, sum: int, ghost es: seq<Entry>)
    returns (freq': map<Char, int>, sum': int, ghost es': seq<Entry>)
    requires 5 * i + 5 <= |body|
    requires es == ParseEntries(body, i) && freq == ToMap(es) && sum == Total(es)
    ensures es' == ParseEntries(body, i + 1)
    ensures freq' == ToMap(es') && sum' == Total(es')
  {
    var ch := ByteToChar(body[5 * i]);
    var tmp := DecodeInt32(body[5 * i + 1..5 * i + 5]);
    es' := es + [(ch, tmp)];
    TotalSnoc(es, (ch, tmp));
    ToMapSnoc(es, (ch, tmp));
    freq' := freq[ch := tmp];
    sum' := sum + tmp;
  }

  /** An archive shorter than its count byte announces fails to parse. */
  lemma HeaderTooShort(input: seq<Byte>)
    requires |input| == 0 || |input| < 1 + 5 * Val(input[0])
    ensures ParseHeader(input, Narrow) == Err(EndOfInput)
    ensures Summary(ParseHeader(input, Narrow)) == Err(EndOfInput)
  {
  }

  /** After the count byte, the header is the entries it announces, and the
      bit stream starts five bytes per entry later. */
  lemma HeaderBody(input: seq<Byte>)
    requires |input| > 0
    ensures ParseHeader(input, Narrow) == ParseBody(input[1..], Val(input[0]), 1)
  {
  }

  /** Adding entry `i` to the leaves and to the map built so far. */
  lemma LeafStep(es: seq<Entry>, i: nat)
    requires i < |es|
    ensures ToMap(es[..i + 1]) == ToMap(es[..i])[es[i].0 := es[i].1]
    ensures Leaves(es[..i + 1]) == Leaves(es[..i]) + [Leaf(es[i].0, es[i].1)]
  {
    assert es[..i + 1][..i] == es[..i];
  }

  /** Writing entry `i` extends the header by its five bytes. */
  lemma EntryStep(out: seq<Byte>, count: seq<Byte>, es: seq<Entry>, i: nat)
    requires i < |es| && out == count + EntryBytes(es[..i])
    ensures out + [CharToByte(es[i].0)] + EncodeInt32(es[i].1) == count + EntryBytes(es[..i + 1])
  {
    assert es[..i + 1][..i] == es[..i];
    assert EntryBytes(es[..i + 1]) == EntryBytes(es[..i]) + EntryOf(es[i]);
  }

  /** The padded register is the last byte `Pack` makes. */
  lemma Pad(done: seq<bool>, pending: seq<bool>, g: Byte)
    requires |done| % 8 == 0 && 0 < |pending| < 8
    ensures Pack(done + pending) == Pack(done) + [Reg(g, pending + Zeros(8 - |pending|))]
  {
    PackAppend(done, pending);
    RegForgets(g, 0, pending + Zeros(8 - |pending|));
  }

  /** The header and the packed codes make up the archive. */
  lemma ZipOutput(input: seq<Char>, before: map<Char, seq<bool>>, header: seq<Byte>, body: seq<Byte>)
    requires header == Header(Count(input), Narrow)
    requires body == Pack(EncodeBits(input, before + TableOf(BuildRoot(Count(input)))))
    ensures header + body == ZipSpec(input, Narrow)
  {
    ZipTable(input, before);
  }

  /** Entries left in the table from an earlier run do not change the bits:
      every character of the input has its code from this tree. */
  lemma ZipTable(input: seq<Char>, before: map<Char, seq<bool>>)
    ensures EncodeBits(input, before + TableOf(BuildRoot(Count(input))))
         == EncodeBits(input, TableOf(BuildRoot(Count(input))))
  {
    var root := BuildRoot(Count(input));
    if root.None? {
      EmptyText(input);
    } else {
      TextInTree(input);
      CodeTableProperties(root.value);
      EncodeBitsAgree(input, before + TableOf(root), TableOf(root));
    }
  }
}
