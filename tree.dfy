/** The Huffman tree (`TreeNode` in huffman.h) as an inductive datatype, the
    code table `build_table` derives from it, and the tree walk `decode`
    performs.  Every node is owned by exactly one parent and nothing is
    shared, so a value is a faithful picture of the linked nodes: a leaf
    is a node whose `left` is null, and a merged node always has both
    children. */
module Tree {
  import opened Base

  datatype Node =
    | Leaf(ch: Char, val: int)
    | Internal(left: Node, right: Node, val: int)

  /** `TreeNode(l, r)`: the merge constructor. */
  function Merge(l: Node, r: Node): (n: Node)
    ensures n.Internal? && n.left == l && n.right == r
    ensures n.val == l.val + r.val
    ensures LeafBag(n) == LeafBag(l) + LeafBag(r)
    ensures WellWeighted(l) && WellWeighted(r) ==> WellWeighted(n)
  {
    Internal(l, r, l.val + r.val)
  }

  /** Every merged node weighs as much as its two children together. */
  ghost predicate WellWeighted(n: Node) {
    match n
    case Leaf(_, _) => true
    case Internal(l, r, v) => v == l.val + r.val && WellWeighted(l) && WellWeighted(r)
  }

  /** The (character, weight) pairs of the leaves, with multiplicity. */
  ghost function LeafBag(n: Node): multiset<(Char, int)> {
    match n
    case Leaf(c, v) => multiset{(c, v)}
    case Internal(l, r, _) => LeafBag(l) + LeafBag(r)
  }

  /** The characters held by the leaves. */
  ghost function LeafChars(n: Node): set<Char> {
    match n
    case Leaf(c, _) => {c}
    case Internal(l, r, _) => LeafChars(l) + LeafChars(r)
  }

  /** The sum of the leaf weights. */
  ghost function LeafWeight(n: Node): int {
    match n
    case Leaf(_, v) => v
    case Internal(l, r, _) => LeafWeight(l) + LeafWeight(r)
  }

  /** A well-weighted node weighs as much as all its leaves together. */
  lemma {:induction false} WeightIsLeafSum(n: Node)
    requires WellWeighted(n)
    ensures n.val == LeafWeight(n)
  {
    if n.Internal? {
      WeightIsLeafSum(n.left);
      WeightIsLeafSum(n.right);
    }
  }

  /** A character is held by a leaf exactly when some (character, weight)
      pair of that leaf is in the bag. */
  lemma {:induction false} LeafCharsOfBag(n: Node, c: Char)
    ensures c in LeafChars(n) <==> exists v :: (c, v) in LeafBag(n)
  {
    if n.Internal? {
      LeafCharsOfBag(n.left, c);
      LeafCharsOfBag(n.right, c);
    } else {
      assert (n.ch, n.val) in LeafBag(n);
    }
  }

  /** The table `build_table(n, prefix)` writes: every leaf's character maps
      to `prefix` followed by its root-to-leaf path, `false` for left and
      `true` for right.  The right subtree is visited last, so on a repeated
      character its entry wins, as with the source's sequential map writes. */
  function Codes(n: Node, prefix: seq<bool>): (t: map<Char, seq<bool>>)
    ensures t.Keys == LeafChars(n)
  {
    match n
    case Leaf(c, _) => map[c := prefix]
    case Internal(l, r, _) => Codes(l, prefix + [false]) + Codes(r, prefix + [true])
  }

  /** The code table of a tree: the codes from its root. */
  function CodeTable(n: Node): map<Char, seq<bool>> {
    Codes(n, [])
  }

  lemma SeqAssoc(a: seq<bool>, b: seq<bool>, c: seq<bool>)
    ensures (a + b) + c == a + (b + c)
  {
  }

  /** Starting from `prefix` only prepends `prefix` to every code. */
  lemma {:induction false} CodesShift(n: Node, prefix: seq<bool>)
    ensures Codes(n, prefix).Keys == CodeTable(n).Keys
    ensures forall c | c in CodeTable(n) :: Codes(n, prefix)[c] == prefix + CodeTable(n)[c]
  {
    match n
    case Leaf(_, _) =>
    case Internal(l, r, _) =>
      CodesShift(l, prefix + [false]);
      CodesShift(l, [false]);
      CodesShift(r, prefix + [true]);
      CodesShift(r, [true]);
      var tn, tl, tr := Codes(n, prefix), CodeTable(l), CodeTable(r);
      assert tn == Codes(l, prefix + [false]) + Codes(r, prefix + [true]);
      assert [] + [false] == [false] && [] + [true] == [true];
      assert CodeTable(n) == Codes(l, [false]) + Codes(r, [true]);
      forall c | c in CodeTable(n)
        ensures tn[c] == prefix + CodeTable(n)[c]
      {
        if c in tr {
          assert tn[c] == (prefix + [true]) + tr[c];
          assert CodeTable(n)[c] == [true] + tr[c];
          SeqAssoc(prefix, [true], tr[c]);
        } else {
          assert tn[c] == (prefix + [false]) + tl[c];
          assert CodeTable(n)[c] == [false] + tl[c];
          SeqAssoc(prefix, [false], tl[c]);
        }
      }
  }

  /** No code is a prefix of a different character's code. */
  ghost predicate PrefixFree(t: map<Char, seq<bool>>) {
    forall a, b | a in t && b in t && a != b :: !(t[a] <= t[b])
  }

  lemma {:induction false} CodesPrefixFree(n: Node, prefix: seq<bool>)
    ensures PrefixFree(Codes(n, prefix))
  {
    match n
    case Leaf(_, _) =>
    case Internal(l, r, _) =>
      CodesPrefixFree(l, prefix + [false]);
      CodesPrefixFree(r, prefix + [true]);
      CodesShift(l, prefix + [false]);
      CodesShift(r, prefix + [true]);
      var tl, tr := Codes(l, prefix + [false]), Codes(r, prefix + [true]);
      var t := Codes(n, prefix);
      assert t == tl + tr;
      forall a, b | a in t && b in t && a != b
        ensures !(t[a] <= t[b])
      {
        if a !in tr && b in tr {
          SeqAssoc(prefix, [false], CodeTable(l)[a]);
          SeqAssoc(prefix, [true], CodeTable(r)[b]);
          assert t[a][|prefix|] != t[b][|prefix|];
        } else if a in tr && b !in tr {
          SeqAssoc(prefix, [true], CodeTable(r)[a]);
          SeqAssoc(prefix, [false], CodeTable(l)[b]);
          assert t[a][|prefix|] != t[b][|prefix|];
        }
      }
  }

  /** The code table of any tree is prefix-free, and a tree that is a
      single leaf gives its character the empty code. */
  lemma CodeTableProperties(n: Node)
    ensures PrefixFree(CodeTable(n))
    ensures CodeTable(n).Keys == LeafChars(n)
    ensures n.Leaf? ==> CodeTable(n) == map[n.ch := []]
    ensures n.Internal? ==> forall c | c in CodeTable(n) :: |CodeTable(n)[c]| > 0
  {
    CodesPrefixFree(n, []);
    if n.Internal? {
      forall c | c in CodeTable(n) ensures |CodeTable(n)[c]| > 0 {
        CodeChild(n, c);
      }
    }
  }

  /** The characters already written, `out`, in front of a decoding
      outcome; a failed decoding stays failed. */
  function Prepend(out: seq<Char>, o: Option<seq<Char>>): Option<seq<Char>> {
    match o
    case None => None
    case Some(s) => Some(out + s)
  }

  /** Writing one more character before the rest of the output. */
  lemma PrependSnoc(out: seq<Char>, c: Char, o: Option<seq<Char>>)
    ensures Prepend(out, Prepend([c], o)) == Prepend(out + [c], o)
  {
    if o.Some? {
      assert out + ([c] + o.value) == (out + [c]) + o.value;
    }
  }

  /** The loop of `HuffTree::decode` for a tree with at least one merge,
      bit by bit: `cur` is where the walk stands, each bit moves it to the
      right (`true`) or left (`false`) child, and reaching a leaf emits its
      character and returns the walk to `root`.  The result is `None` when the
      bits run out before `cnt` characters are out, and always when `cnt` is
      negative, since counting down never reaches zero then. */
  function DecodeBits(root: Node, cur: Node, bits: seq<bool>, cnt: int): (r: Option<seq<Char>>)
    requires root.Internal? && cur.Internal?
    ensures r.Some? ==> |r.value| == cnt
    ensures r.Some? ==> forall i | 0 <= i < cnt :: r.value[i] in LeafChars(root) + LeafChars(cur)
    decreases |bits|
  {
    if cnt == 0 then Some([])
    else if bits == [] then None
    else
      var next := if bits[0] then cur.right else cur.left;
      assert LeafChars(next) <= LeafChars(cur);
      if next.Leaf? then Prepend([next.ch], DecodeBits(root, root, bits[1..], cnt - 1))
      else DecodeBits(root, next, bits[1..], cnt)
  }

  /** Decoding stops as soon as `cnt` characters are out: bits after those it
      needs are never looked at, so padding cannot produce a character. */
  lemma {:induction false} DecodeIgnoresTail(root: Node, cur: Node, bits: seq<bool>, tail: seq<bool>, cnt: nat)
    requires root.Internal? && cur.Internal?
    requires DecodeBits(root, cur, bits, cnt).Some?
    ensures DecodeBits(root, cur, bits + tail, cnt) == DecodeBits(root, cur, bits, cnt)
    decreases |bits|
  {
    if cnt > 0 {
      assert (bits + tail)[1..] == bits[1..] + tail;
      var next := if bits[0] then cur.right else cur.left;
      if next.Leaf? {
        DecodeIgnoresTail(root, root, bits[1..], tail, cnt - 1);
      } else {
        DecodeIgnoresTail(root, next, bits[1..], tail, cnt);
      }
    }
  }

  /** Following the code of a leaf character from node `n` emits exactly that
      character and brings the walk back to the root. */
  lemma {:induction false} WalkCode(root: Node, n: Node, c: Char, rest: seq<bool>, cnt: nat)
    requires root.Internal? && n.Internal?
    requires c in CodeTable(n)
    ensures DecodeBits(root, n, CodeTable(n)[c] + rest, cnt + 1)
         == Prepend([c], DecodeBits(root, root, rest, cnt))
    decreases n
  {
    CodeChild(n, c);
    var b := c in CodeTable(n.right);
    var child := if b then n.right else n.left;
    var code := CodeTable(child)[c];
    assert CodeTable(n)[c] + rest == [b] + (code + rest);
    WalkBit(root, n, b, code + rest, cnt + 1);
    if child.Internal? {
      WalkCode(root, child, c, rest, cnt);
    } else {
      assert code + rest == rest;
    }
  }

  /** The code of `c` in an internal node is the branch bit followed by its
      code in that branch. */
  lemma CodeChild(n: Node, c: Char)
    requires n.Internal? && c in CodeTable(n)
    ensures var b := c in CodeTable(n.right);
            var child := if b then n.right else n.left;
            c in CodeTable(child) && CodeTable(n)[c] == [b] + CodeTable(child)[c]
  {
    var l, r := n.left, n.right;
    assert n == Internal(l, r, n.val);
    CodesShift(l, [false]);
    CodesShift(r, [true]);
    assert [] + [false] == [false] && [] + [true] == [true];
    assert CodeTable(n) == Codes(l, [false]) + Codes(r, [true]);
  }

  /** One bit of the walk from an internal node: into the branch the bit
      names, emitting its character and restarting at the root when the
      branch is a leaf. */
  lemma WalkBit(root: Node, n: Node, b: bool, tail: seq<bool>, cnt: int)
    requires root.Internal? && n.Internal? && cnt != 0
    ensures var next := if b then n.right else n.left;
            DecodeBits(root, n, [b] + tail, cnt)
            == if next.Leaf? then Prepend([next.ch], DecodeBits(root, root, tail, cnt - 1))
               else DecodeBits(root, next, tail, cnt)
  {
    assert ([b] + tail)[0] == b;
    assert ([b] + tail)[1..] == tail;
  }

  /** The bits `zip` produces for `s` with table `t`: the codes of its
      characters one after another.  `table[ch]` on a missing key yields an
      empty code, as `std::map::operator[]` does. */
  function EncodeBits(s: seq<Char>, t: map<Char, seq<bool>>): seq<bool> {
    if s == [] then [] else Lookup(t, s[0]) + EncodeBits(s[1..], t)
  }

  function Lookup(t: map<Char, seq<bool>>, c: Char): seq<bool> {
    if c in t then t[c] else []
  }

  /** Appending a character appends its code. */
  lemma {:induction false} EncodeBitsSnoc(s: seq<Char>, c: Char, t: map<Char, seq<bool>>)
    ensures EncodeBits(s + [c], t) == EncodeBits(s, t) + Lookup(t, c)
  {
    if s == [] {
      assert [c][1..] == [];
    } else {
      assert (s + [c])[1..] == s[1..] + [c];
      EncodeBitsSnoc(s[1..], c, t);
    }
  }

  /** The bits of a prefix one character longer. */
  lemma EncodeBitsPrefix(s: seq<Char>, i: nat, t: map<Char, seq<bool>>)
    requires i < |s|
    ensures EncodeBits(s[..i + 1], t) == EncodeBits(s[..i], t) + Lookup(t, s[i])
  {
    assert s[..i + 1] == s[..i] + [s[i]];
    EncodeBitsSnoc(s[..i], s[i], t);
  }

  /** Two tables that agree on the characters of `s` encode it alike. */
  lemma {:induction false} EncodeBitsAgree(s: seq<Char>, t: map<Char, seq<bool>>, u: map<Char, seq<bool>>)
    requires forall i | 0 <= i < |s| :: s[i] in t && s[i] in u && t[s[i]] == u[s[i]]
    ensures EncodeBits(s, t) == EncodeBits(s, u)
  {
    if s != [] {
      EncodeBitsAgree(s[1..], t, u);
    }
  }

  /** Decoding the encoding of `s` gives back `s`, whatever follows it. */
  lemma {:induction false} DecodeEncode(root: Node, s: seq<Char>, tail: seq<bool>)
    requires root.Internal?
    requires forall i | 0 <= i < |s| :: s[i] in LeafChars(root)
    ensures DecodeBits(root, root, EncodeBits(s, CodeTable(root)) + tail, |s|) == Some(s)
  {
    if s != [] {
      var t := CodeTable(root);
      var rest := EncodeBits(s[1..], t) + tail;
      assert EncodeBits(s, t) + tail == t[s[0]] + rest;
      DecodeEncode(root, s[1..], tail);
      WalkCode(root, root, s[0], rest, |s| - 1);
      assert [s[0]] + s[1..] == s;
    }
  }
}
