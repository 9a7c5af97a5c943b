/** The `std::map<char, int>` of character frequencies: its entries in key
    order (which is the order `HuffTree` inserts leaves and `archive` writes the
    header), the sum of its counts, and the map `zip` counts from its input. */
module FrequencyTable {
  import opened Base

  type Entry = (Char, int)

  /** The entries of `m` whose key is at least `lo`, in ascending key order. */
  function EntriesFrom(m: map<Char, int>, lo: int): seq<Entry>
    requires -128 <= lo <= 128
    decreases 128 - lo
  {
    if lo == 128 then []
    else
      var c: Char := lo;
      (if c in m then [(c, m[c])] else []) + EntriesFrom(m, lo + 1)
  }

  /** The entries of `m` in the order a range-for over a `std::map<char, int>`
      visits them: by signed key, -128 first. */
  function Entries(m: map<Char, int>): seq<Entry> {
    EntriesFrom(m, -128)
  }

  /** Strictly ascending keys. */
  ghost predicate Ascending(es: seq<Entry>) {
    forall i, j | 0 <= i < j < |es| :: es[i].0 < es[j].0
  }

  /** The keys of `m` from `lo` upward. */
  ghost function KeysFrom(m: map<Char, int>, lo: int): set<Char> {
    set k | k in m && lo <= k
  }

  lemma {:induction false} EntriesFromProperties(m: map<Char, int>, lo: int)
    requires -128 <= lo <= 128
    ensures Ascending(EntriesFrom(m, lo))
    ensures forall e :: e in EntriesFrom(m, lo) <==> lo <= e.0 && e.0 in m && m[e.0] == e.1
    ensures |EntriesFrom(m, lo)| == |KeysFrom(m, lo)|
    decreases 128 - lo
  {
    if lo == 128 {
      assert KeysFrom(m, lo) == {};
    } else {
      EntriesFromProperties(m, lo + 1);
      var c: Char := lo;
      var rest := EntriesFrom(m, lo + 1);
      if c in m {
        assert EntriesFrom(m, lo) == [(c, m[c])] + rest;
        assert KeysFrom(m, lo) == KeysFrom(m, lo + 1) + {c};
        assert c !in KeysFrom(m, lo + 1);
      } else {
        assert EntriesFrom(m, lo) == rest;
        assert KeysFrom(m, lo) == KeysFrom(m, lo + 1);
      }
    }
  }

  /** The header order: every pair of `m` exactly once, keys strictly
      ascending, so `archive` writes exactly `|m|` entries. */
  lemma EntriesProperties(m: map<Char, int>)
    ensures Ascending(Entries(m))
    ensures forall e :: e in Entries(m) <==> e.0 in m && m[e.0] == e.1
    ensures |Entries(m)| == |m|
  {
    EntriesFromProperties(m, -128);
    assert KeysFrom(m, -128) == m.Keys;
  }

  /** The entries, each key once, in strictly ascending order, are the only
      such sequence: a sorted list of the map's pairs is its entry list. */
  lemma {:induction false} SortedEntriesUnique(m: map<Char, int>, es: seq<Entry>)
    requires Ascending(es)
    requires forall e :: e in es <==> e.0 in m && m[e.0] == e.1
    ensures Entries(m) == es
  {
    EntriesProperties(m);
    SortedUnique(Entries(m), es);
  }

  lemma {:induction false} SortedUnique(a: seq<Entry>, b: seq<Entry>)
    requires Ascending(a) && Ascending(b)
    requires forall e :: e in a <==> e in b
    ensures a == b
  {
    if a != [] && b != [] {
      assert a[0] in b;
      assert b[0] in a;
      if a[0] != b[0] {
        assert false;
      }
      forall e ensures e in a[1..] <==> e in b[1..] {
        if e in a[1..] {
          var i :| 1 <= i < |a| && a[i] == e;
          assert e != a[0];
          assert e in b;
        }
        if e in b[1..] {
          var i :| 1 <= i < |b| && b[i] == e;
          assert e != b[0];
          assert e in a;
        }
      }
      SortedUnique(a[1..], b[1..]);
      assert a == [a[0]] + a[1..] && b == [b[0]] + b[1..];
    } else if a != [] || b != [] {
      HeadIn(a);
      HeadIn(b);
      assert false;
    }
  }

  lemma HeadIn(a: seq<Entry>)
    ensures a != [] ==> a[0] in a
  {
  }

  /** The sum of the counts of a list of entries. */
  function Total(es: seq<Entry>): int {
    if es == [] then 0 else es[0].1 + Total(es[1..])
  }

  lemma {:induction false} TotalSnoc(es: seq<Entry>, e: Entry)
    ensures Total(es + [e]) == Total(es) + e.1
  {
    if es == [] {
      assert [e][1..] == [];
    } else {
      assert (es + [e])[1..] == es[1..] + [e];
      TotalSnoc(es[1..], e);
    }
  }

  /** The map built by writing `freq[ch] = cnt` for each entry in turn. */
  function ToMap(es: seq<Entry>): (m: map<Char, int>)
    ensures forall i | 0 <= i < |es| :: es[i].0 in m
    ensures forall k | k in m :: exists i | 0 <= i < |es| :: es[i].0 == k
  {
    if es == [] then map[]
    else
      var last := es[|es| - 1];
      var m := ToMap(es[..|es| - 1]);
      assert forall i | 0 <= i < |es| - 1 :: es[..|es| - 1][i] == es[i];
      m[last.0 := last.1]
  }

  /** One more entry overwrites (or adds) its key. */
  lemma ToMapSnoc(es: seq<Entry>, e: Entry)
    ensures ToMap(es + [e]) == ToMap(es)[e.0 := e.1]
  {
    assert (es + [e])[..|es|] == es;
  }

  /** With distinct keys, rebuilding the map from its entries gives it back. */
  lemma {:induction false} ToMapDistinct(es: seq<Entry>)
    requires forall i, j | 0 <= i < j < |es| :: es[i].0 != es[j].0
    ensures forall i | 0 <= i < |es| :: ToMap(es)[es[i].0] == es[i].1
  {
    if es != [] {
      var init := es[..|es| - 1];
      ToMapDistinct(init);
      forall i | 0 <= i < |es| ensures ToMap(es)[es[i].0] == es[i].1 {
        if i < |es| - 1 {
          assert init[i] == es[i];
        }
      }
    }
  }

  lemma EntriesToMap(m: map<Char, int>)
    ensures ToMap(Entries(m)) == m
  {
    var t := ToMap(Entries(m));
    ToMapKeys(m);
    ToMapValues(m);
    assert forall k | k in m :: t[k] == m[k];
  }

  lemma ToMapKeys(m: map<Char, int>)
    ensures ToMap(Entries(m)).Keys == m.Keys
  {
    var es := Entries(m);
    EntriesProperties(m);
    forall k | k in ToMap(es) ensures k in m {
      var i :| 0 <= i < |es| && es[i].0 == k;
      assert es[i] in es;
    }
    forall k | k in m ensures k in ToMap(es) {
      assert (k, m[k]) in es;
    }
  }

  lemma ToMapValues(m: map<Char, int>)
    ensures forall k | k in m && k in ToMap(Entries(m)) :: ToMap(Entries(m))[k] == m[k]
  {
    forall k | k in m && k in ToMap(Entries(m)) ensures ToMap(Entries(m))[k] == m[k] {
      ToMapValue(m, k);
    }
  }

  lemma ToMapValue(m: map<Char, int>, k: Char)
    requires k in m && k in ToMap(Entries(m))
    ensures ToMap(Entries(m))[k] == m[k]
  {
    var es := Entries(m);
    EntriesProperties(m);
    assert (k, m[k]) in es;
    var i :| 0 <= i < |es| && es[i] == (k, m[k]);
    EntriesDistinct(es);
    ToMapDistinct(es);
    assert ToMap(es)[es[i].0] == es[i].1;
  }

  lemma EntriesDistinct(es: seq<Entry>)
    requires Ascending(es)
    ensures forall i, j | 0 <= i < j < |es| :: es[i].0 != es[j].0
  {
  }

  lemma TotalCons(m: map<Char, int>, lo: int)
    requires -128 <= lo < 128
    ensures Total(EntriesFrom(m, lo))
         == (if lo in m then m[lo] else 0) + Total(EntriesFrom(m, lo + 1))
  {
    var k: Char := lo;
    var rest := EntriesFrom(m, lo + 1);
    if k in m {
      var es := [(k, m[k])] + rest;
      assert EntriesFrom(m, lo) == es;
      assert es[1..] == rest;
      assert Total(es) == es[0].1 + Total(es[1..]);
    } else {
      assert EntriesFrom(m, lo) == [] + rest;
      assert [] + rest == rest;
    }
  }

  lemma {:induction false} EntriesEmpty(lo: int)
    requires -128 <= lo <= 128
    ensures EntriesFrom(map[], lo) == []
    decreases 128 - lo
  {
    if lo < 128 {
      EntriesEmpty(lo + 1);
    }
  }

  /** A key's count changed from `old` (or absent) to `v` changes the total
      by the difference. */
  lemma {:induction false} TotalFromUpdate(m: map<Char, int>, c: Char, v: int, lo: int)
    requires -128 <= lo <= 128
    ensures Total(EntriesFrom(m[c := v], lo))
         == Total(EntriesFrom(m, lo))
            - (if c in m && lo <= c then m[c] else 0) + (if lo <= c then v else 0)
    decreases 128 - lo
  {
    if lo < 128 {
      TotalFromUpdate(m, c, v, lo + 1);
      var k: Char := lo;
      TotalCons(m, lo);
      TotalCons(m[c := v], lo);
    }
  }

  /** `freq` after `freq[ch]++` for each character read. */
  ghost function Count(s: seq<Char>): map<Char, int> {
    if s == [] then map[]
    else
      var m := Count(s[..|s| - 1]);
      var c := s[|s| - 1];
      m[c := (if c in m then m[c] else 0) + 1]
  }

  /** The counted map has exactly the characters of `s` as keys, each with its
      number of occurrences. */
  lemma {:induction false} CountIsMultiset(s: seq<Char>)
    ensures forall c :: c in Count(s) <==> c in s
    ensures forall c | c in Count(s) :: Count(s)[c] == multiset(s)[c]
  {
    if s != [] {
      var init, c := s[..|s| - 1], s[|s| - 1];
      CountIsMultiset(init);
      assert s == init + [c];
      assert multiset(s) == multiset(init) + multiset{c};
    }
  }

  /** The counts add up to the length of the input. */
  lemma {:induction false} CountTotal(s: seq<Char>)
    ensures Total(Entries(Count(s))) == |s|
  {
    if s == [] {
      EntriesEmpty(-128);
    } else {
      CountTotal(s[..|s| - 1]);
      CountTotalStep(s);
    }
  }

  /** Counting one more character adds one to the total. */
  lemma CountTotalStep(s: seq<Char>)
    requires s != []
    ensures Total(Entries(Count(s))) == Total(Entries(Count(s[..|s| - 1]))) + 1
  {
    var c := s[|s| - 1];
    var m := Count(s[..|s| - 1]);
    var v := (if c in m then m[c] else 0) + 1;
    assert Count(s) == m[c := v];
    TotalFromUpdate(m, c, v, -128);
    assert Total(Entries(m[c := v])) == Total(Entries(m)) + 1;
  }

  /** The distinct characters of `s`. */
  ghost function Distinct(s: seq<Char>): set<Char> {
    set c | c in s
  }

  lemma CountKeys(s: seq<Char>)
    ensures |Count(s)| == |Distinct(s)|
  {
    CountIsMultiset(s);
    assert Count(s).Keys == Distinct(s);
  }
}
