/**
 * A JavaScript plain object with string keys, used as a dictionary.
 *
 * Such an object never holds a key twice, and `Object.keys` lists its keys in
 * the order JavaScript keeps for ordinary objects: first every array index (the
 * canonical decimal numeral of an integer below 2^32 - 1) in ascending numeric
 * order, then every other key in the order it was first assigned. `o[k] = v`
 * replaces the value of an existing key in its place; a new key goes after
 * all other keys, or, when it is an array index, right after the smaller
 * array indices.
 *
 * The objects have no prototype: `"__proto__"` is an ordinary key here, and
 * no inherited member is ever found by `Get`.
 */
module Records {
  import opened Wrappers

  datatype Entry<V> = Entry(key: string, value: V)

  /** The entries of an object, in the order `Object.keys` lists them. */
  datatype Object<V> = Object(entries: seq<Entry<V>>)

  // ---------------------------------------------------------------------------
  // Array-index keys
  // ---------------------------------------------------------------------------

  predicate IsDigit(c: char) {
    '0' <= c <= '9'
  }

  /** The value of a decimal numeral, or -1 when `s` holds a character that is not a digit. */
  function NumeralValue(s: string): (v: int)
    ensures v >= -1
  {
    if s == [] then 0
    else
      var init, c := NumeralValue(s[..|s| - 1]), s[|s| - 1];
      if init < 0 || !IsDigit(c) then -1 else 10 * init + (c as int - '0' as int)
  }

  /** One more than the largest array index: 2^32 - 1. */
  const ArrayIndexBound: nat := 0xFFFF_FFFF

  /** A key that is an array index: a decimal numeral without a leading zero whose value is below 2^32 - 1. */
  predicate IsArrayIndex(k: string) {
    && |k| > 0
    && (k[0] == '0' ==> |k| == 1)
    && 0 <= NumeralValue(k) < ArrayIndexBound
  }

  function IndexValue(k: string): nat
    requires IsArrayIndex(k)
  {
    NumeralValue(k)
  }

  /** A numeral without leading zeros that is not empty denotes a positive number. */
  lemma {:induction false} PositiveNumeral(s: string)
    requires |s| > 0 && NumeralValue(s) >= 0 && s[0] != '0'
    ensures NumeralValue(s) > 0
  {
    if |s| > 1 {
      var init := s[..|s| - 1];
      assert init[0] == s[0];
      PositiveNumeral(init);
    }
  }

  /** Numerals without leading zeros with the same value are the same numeral. */
  lemma {:induction false} NumeralInjective(a: string, b: string)
    requires NumeralValue(a) >= 0 && NumeralValue(b) >= 0
    requires (|a| > 0 ==> a[0] != '0') && (|b| > 0 ==> b[0] != '0')
    requires NumeralValue(a) == NumeralValue(b)
    ensures a == b
  {
    if a == [] {
      if b != [] {
        PositiveNumeral(b);
      }
    } else if b == [] {
      PositiveNumeral(a);
    } else {
      var a', b' := a[..|a| - 1], b[..|b| - 1];
      var da, db := a[|a| - 1] as int - '0' as int, b[|b| - 1] as int - '0' as int;
      assert NumeralValue(a) == 10 * NumeralValue(a') + da && 0 <= da <= 9;
      assert NumeralValue(b) == 10 * NumeralValue(b') + db && 0 <= db <= 9;
      assert NumeralValue(a') == NumeralValue(b') && da == db;
      assert |a'| > 0 ==> a'[0] == a[0];
      assert |b'| > 0 ==> b'[0] == b[0];
      NumeralInjective(a', b');
      assert a == a' + [a[|a| - 1]];
      assert b == b' + [b[|b| - 1]];
    }
  }

  /** Two array indices with the same value are the same key. */
  lemma ArrayIndexInjective(a: string, b: string)
    requires IsArrayIndex(a) && IsArrayIndex(b) && IndexValue(a) == IndexValue(b)
    ensures a == b
  {
    assert NumeralValue("0") == 0 by {
      assert "0"[..0] == "";
    }
    if a[0] == '0' {
      assert a == "0";
      if b[0] == '0' {
        assert b == "0";
      } else {
        PositiveNumeral(b);
      }
    } else if b[0] == '0' {
      assert b == "0";
      PositiveNumeral(a);
    } else {
      NumeralInjective(a, b);
    }
  }

  // ---------------------------------------------------------------------------
  // Key lists
  // ---------------------------------------------------------------------------

  predicate NoRepeats(ks: seq<string>) {
    forall i, j :: 0 <= i < j < |ks| ==> ks[i] != ks[j]
  }

  /** Array indices come first, in ascending numeric order; every other key comes after them. */
  predicate InEnumerationOrder(ks: seq<string>) {
    forall i, j :: 0 <= i < j < |ks| && IsArrayIndex(ks[j]) ==> IsArrayIndex(ks[i]) && IndexValue(ks[i]) < IndexValue(ks[j])
  }

  /** The key lists an object can have. */
  predicate ValidKeys(ks: seq<string>) {
    NoRepeats(ks) && InEnumerationOrder(ks)
  }

  lemma ValidPrefix(ks: seq<string>, n: nat)
    requires ValidKeys(ks) && n <= |ks|
    ensures ValidKeys(ks[..n])
  {
    assert forall i :: 0 <= i < n ==> ks[..n][i] == ks[i];
  }

  /** The keys of a list of entries, in order, repeats included. */
  function KeysOf<V>(pairs: seq<Entry<V>>): (ks: seq<string>)
    ensures |ks| == |pairs|
    ensures forall i :: 0 <= i < |pairs| ==> ks[i] == pairs[i].key
  {
    seq(|pairs|, i requires 0 <= i < |pairs| => pairs[i].key)
  }

  /** An object as JavaScript can hold it. */
  type Record<V> = o: Object<V> | ValidKeys(KeysOf(o.entries)) witness Object([])

  /** The keys of `ks` that are not array indices, in order. */
  function NonIndexKeys(ks: seq<string>): (r: seq<string>)
    ensures |r| <= |ks|
  {
    if ks == [] then []
    else
      var last := ks[|ks| - 1];
      NonIndexKeys(ks[..|ks| - 1]) + (if IsArrayIndex(last) then [] else [last])
  }

  /** The non-index keys are the keys of `ks` that are not array indices. */
  lemma {:induction false} NonIndexKeysMembers(ks: seq<string>)
    ensures forall k :: k in NonIndexKeys(ks) <==> k in ks && !IsArrayIndex(k)
  {
    if ks != [] {
      var last := ks[|ks| - 1];
      NonIndexKeysMembers(ks[..|ks| - 1]);
      assert ks == ks[..|ks| - 1] + [last];
    }
  }

  lemma {:induction false} NonIndexKeysAppend(a: seq<string>, b: seq<string>)
    ensures NonIndexKeys(a + b) == NonIndexKeys(a) + NonIndexKeys(b)
  {
    if b != [] {
      var b' := b[..|b| - 1];
      var last := b[|b| - 1];
      NonIndexKeysAppend(a, b');
      assert (a + b)[..|a + b| - 1] == a + b';
      assert (a + b)[|a + b| - 1] == last;
      var tail := if IsArrayIndex(last) then [] else [last];
      assert NonIndexKeys(a + b) == NonIndexKeys(a + b') + tail;
      assert NonIndexKeys(b) == NonIndexKeys(b') + tail;
    } else {
      assert a + b == a;
    }
  }

  lemma NonIndexKeysOfOne(k: string)
    ensures NonIndexKeys([k]) == if IsArrayIndex(k) then [] else [k]
  {
    assert [k][..0] == [];
  }

  /** When the last key of `a` is not an array index, `b`, in enumeration order with the same keys and non-index order, ends with it too. */
  lemma SameLastNonIndexKey(a: seq<string>, b: seq<string>)
    requires ValidKeys(a) && ValidKeys(b) && a != [] && b != []
    requires forall k :: k in a <==> k in b
    requires NonIndexKeys(a) == NonIndexKeys(b)
    requires !IsArrayIndex(a[|a| - 1])
    ensures a[|a| - 1] == b[|b| - 1]
  {
    var x, y := a[|a| - 1], b[|b| - 1];
    var na, nb := NonIndexKeys(a[..|a| - 1]), NonIndexKeys(b[..|b| - 1]);
    assert NonIndexKeys(a) == na + [x];
    assert x in b;
    var i :| 0 <= i < |b| && b[i] == x;
    NonIndexKeyLast(b, i);
    assert NonIndexKeys(b) == nb + [y];
    assert (na + [x])[|na|] == x && (nb + [y])[|nb|] == y;
  }

  /** In enumeration order, a key after a non-index key is not an array index either. */
  lemma NonIndexKeyLast(ks: seq<string>, i: nat)
    requires InEnumerationOrder(ks) && i < |ks| && !IsArrayIndex(ks[i])
    ensures !IsArrayIndex(ks[|ks| - 1])
  {
  }

  /** Two key lists in enumeration order, with the same keys, that both end with an array index end with the same one: the largest. */
  lemma SameLastIndexKey(a: seq<string>, b: seq<string>)
    requires ValidKeys(a) && ValidKeys(b) && a != [] && b != []
    requires forall k :: k in a <==> k in b
    requires IsArrayIndex(a[|a| - 1]) && IsArrayIndex(b[|b| - 1])
    ensures a[|a| - 1] == b[|b| - 1]
  {
    var x, y := a[|a| - 1], b[|b| - 1];
    assert x in b && y in a;
    var vx, vy := IndexValue(x), IndexValue(y);
    var i :| 0 <= i < |b| && b[i] == x;
    var j :| 0 <= j < |a| && a[j] == y;
    assert i == |b| - 1 || vx < vy;
    assert j == |a| - 1 || vy < vx;
  }

  /**
   * A key list in enumeration order is determined by its keys and the order of
   * its non-index keys: nothing else about the order is left open.
   */
  lemma {:induction false} EnumerationOrderUnique(a: seq<string>, b: seq<string>)
    requires ValidKeys(a) && ValidKeys(b)
    requires forall k :: k in a <==> k in b
    requires NonIndexKeys(a) == NonIndexKeys(b)
    ensures a == b
    decreases |a|
  {
    if a == [] {
      NoKeysEmpty(b);
    } else {
      assert b != [] by {
        assert a[0] in b;
      }
      SameLastKey(a, b);
      DropLastKey(a, b);
      var a', b' := a[..|a| - 1], b[..|b| - 1];
      EnumerationOrderUnique(a', b');
      assert a == a' + [a[|a| - 1]] && b == b' + [b[|b| - 1]];
    }
  }

  lemma NoKeysEmpty(ks: seq<string>)
    requires forall k :: k !in ks
    ensures ks == []
  {
    forall k
      ensures multiset(ks)[k] == 0
    {
      assert k !in ks;
    }
    assert multiset(ks) == multiset{};
    assert |ks| == |multiset(ks)|;
  }

  lemma SameLastKey(a: seq<string>, b: seq<string>)
    requires ValidKeys(a) && ValidKeys(b) && a != [] && b != []
    requires forall k :: k in a <==> k in b
    requires NonIndexKeys(a) == NonIndexKeys(b)
    ensures a[|a| - 1] == b[|b| - 1]
  {
    if !IsArrayIndex(a[|a| - 1]) {
      SameLastNonIndexKey(a, b);
    } else if !IsArrayIndex(b[|b| - 1]) {
      SameLastNonIndexKey(b, a);
    } else {
      SameLastIndexKey(a, b);
    }
  }

  ghost predicate SameMembers(a: seq<string>, b: seq<string>) {
    forall k :: k in a <==> k in b
  }

  /** Dropping the same last key from both lists keeps them alike. */
  lemma DropLastKey(a: seq<string>, b: seq<string>)
    requires ValidKeys(a) && ValidKeys(b) && a != [] && b != []
    requires a[|a| - 1] == b[|b| - 1]
    requires forall k :: k in a <==> k in b
    requires NonIndexKeys(a) == NonIndexKeys(b)
    ensures ValidKeys(a[..|a| - 1]) && ValidKeys(b[..|b| - 1])
    ensures SameMembers(a[..|a| - 1], b[..|b| - 1])
    ensures NonIndexKeys(a[..|a| - 1]) == NonIndexKeys(b[..|b| - 1])
  {
    ValidPrefix(a, |a| - 1);
    ValidPrefix(b, |b| - 1);
    DropLastMembers(a, b);
    DropLastNonIndexKeys(a, b);
  }

  lemma DropLastMembers(a: seq<string>, b: seq<string>)
    requires NoRepeats(a) && NoRepeats(b) && a != [] && b != []
    requires a[|a| - 1] == b[|b| - 1]
    requires forall k :: k in a <==> k in b
    ensures SameMembers(a[..|a| - 1], b[..|b| - 1])
  {
    var x, a', b' := a[|a| - 1], a[..|a| - 1], b[..|b| - 1];
    assert a == a' + [x] && b == b' + [x];
    forall k
      ensures k in a' <==> k in b'
    {
      if k == x {
        assert k !in a' by {
          assert forall i :: 0 <= i < |a'| ==> a'[i] == a[i] && a[i] != a[|a| - 1];
        }
        assert k !in b' by {
          assert forall i :: 0 <= i < |b'| ==> b'[i] == b[i] && b[i] != b[|b| - 1];
        }
      } else {
        assert k in a <==> k in a';
        assert k in b <==> k in b';
      }
    }
  }

  lemma DropLastNonIndexKeys(a: seq<string>, b: seq<string>)
    requires a != [] && b != []
    requires a[|a| - 1] == b[|b| - 1]
    requires NonIndexKeys(a) == NonIndexKeys(b)
    ensures NonIndexKeys(a[..|a| - 1]) == NonIndexKeys(b[..|b| - 1])
  {
    var x, a', b' := a[|a| - 1], a[..|a| - 1], b[..|b| - 1];
    var na, nb, t := NonIndexKeys(a'), NonIndexKeys(b'), if IsArrayIndex(x) then [] else [x];
    assert NonIndexKeys(a) == na + t;
    assert NonIndexKeys(b) == nb + t;
    assert |na| == |nb|;
    assert na == (na + t)[..|na|] && nb == (nb + t)[..|nb|];
  }

  /** Where a new key goes: at the end, or, for an array index, right after the smaller array indices. */
  function InsertPosition(ks: seq<string>, k: string): (p: nat)
    ensures p <= |ks|
    ensures !IsArrayIndex(k) ==> p == |ks|
    ensures IsArrayIndex(k) ==> forall i :: 0 <= i < p ==> IsArrayIndex(ks[i]) && IndexValue(ks[i]) < IndexValue(k)
    ensures IsArrayIndex(k) && p < |ks| ==> !(IsArrayIndex(ks[p]) && IndexValue(ks[p]) < IndexValue(k))
  {
    if ks == [] then 0
    else if IsArrayIndex(k) && !(IsArrayIndex(ks[0]) && IndexValue(ks[0]) < IndexValue(k)) then 0
    else 1 + InsertPosition(ks[1..], k)
  }

  /** The key list after a new key `k` is assigned. */
  function InsertKey(ks: seq<string>, k: string): (r: seq<string>)
    requires ValidKeys(ks) && k !in ks
    ensures ValidKeys(r)
    ensures |r| == |ks| + 1
    ensures forall x :: x in r <==> x in ks || x == k
    ensures NonIndexKeys(r) == NonIndexKeys(ks) + NonIndexKeys([k])
  {
    var p := InsertPosition(ks, k);
    InsertedInOrder(ks, k, p);
    InsertedKeys(ks, k, p);
    ks[..p] + [k] + ks[p..]
  }

  /** Past the insert position of an array index, every array index is larger. */
  lemma AfterInsertPosition(ks: seq<string>, k: string, p: nat)
    requires ValidKeys(ks) && k !in ks && IsArrayIndex(k) && p == InsertPosition(ks, k)
    ensures forall j :: p <= j < |ks| && IsArrayIndex(ks[j]) ==> IndexValue(k) < IndexValue(ks[j])
  {
    forall j | p <= j < |ks| && IsArrayIndex(ks[j])
      ensures IndexValue(k) < IndexValue(ks[j])
    {
      assert IsArrayIndex(ks[p]) && IndexValue(k) <= IndexValue(ks[p]);
      if IndexValue(ks[p]) == IndexValue(k) {
        ArrayIndexInjective(ks[p], k);
      }
    }
  }

  lemma InsertedInOrder(ks: seq<string>, k: string, p: nat)
    requires ValidKeys(ks) && k !in ks && p == InsertPosition(ks, k)
    ensures ValidKeys(ks[..p] + [k] + ks[p..])
  {
    var r := ks[..p] + [k] + ks[p..];
    assert |r| == |ks| + 1;
    assert forall i :: 0 <= i < p ==> r[i] == ks[i];
    assert r[p] == k;
    assert forall i :: p < i < |r| ==> r[i] == ks[i - 1];
    if IsArrayIndex(k) {
      AfterInsertPosition(ks, k, p);
    }
    forall i, j | 0 <= i < j < |r|
      ensures r[i] != r[j]
      ensures IsArrayIndex(r[j]) ==> IsArrayIndex(r[i]) && IndexValue(r[i]) < IndexValue(r[j])
    {
      if j < p {
        assert r[i] == ks[i] && r[j] == ks[j];
      } else if j == p {
        assert r[i] == ks[i];
      } else if i < p {
        assert r[i] == ks[i] && r[j] == ks[j - 1];
      } else if i == p {
        assert r[j] == ks[j - 1];
      } else {
        assert r[i] == ks[i - 1] && r[j] == ks[j - 1];
      }
    }
  }

  lemma InsertedKeys(ks: seq<string>, k: string, p: nat)
    requires p <= |ks| && (!IsArrayIndex(k) ==> p == |ks|)
    ensures |ks[..p] + [k] + ks[p..]| == |ks| + 1
    ensures forall x :: x in ks[..p] + [k] + ks[p..] <==> x in ks || x == k
    ensures NonIndexKeys(ks[..p] + [k] + ks[p..]) == NonIndexKeys(ks) + NonIndexKeys([k])
  {
    var r := ks[..p] + [k] + ks[p..];
    SplitAt(ks, p);
    assert multiset(r) == multiset(ks) + multiset{k};
    InsertedNonIndexKeys(ks, k, p);
  }

  lemma InsertedNonIndexKeys(ks: seq<string>, k: string, p: nat)
    requires p <= |ks| && (!IsArrayIndex(k) ==> p == |ks|)
    ensures NonIndexKeys(ks[..p] + [k] + ks[p..]) == NonIndexKeys(ks) + NonIndexKeys([k])
  {
    if IsArrayIndex(k) {
      IndexKeyInsertedAt(ks, k, p);
    } else {
      NonIndexKeyAppended(ks, k);
    }
  }

  lemma IndexKeyInsertedAt(ks: seq<string>, k: string, p: nat)
    requires p <= |ks| && IsArrayIndex(k)
    ensures NonIndexKeys(ks[..p] + [k] + ks[p..]) == NonIndexKeys(ks) + NonIndexKeys([k])
  {
    SplitAt(ks, p);
    IndexKeyInserted(ks[..p], k, ks[p..]);
    NonIndexKeysOfOne(k);
    AppendNothing(NonIndexKeys(ks));
  }

  lemma NonIndexKeyAppended(ks: seq<string>, k: string)
    ensures NonIndexKeys(ks[..|ks|] + [k] + ks[|ks|..]) == NonIndexKeys(ks) + NonIndexKeys([k])
  {
    SpliceAtEnd(ks, k);
    NonIndexKeysAppend(ks, [k]);
  }

  lemma IndexKeyInserted(front: seq<string>, k: string, back: seq<string>)
    requires IsArrayIndex(k)
    ensures NonIndexKeys(front + [k] + back) == NonIndexKeys(front + back)
  {
    NonIndexKeysOfOne(k);
    NonIndexKeysAppend(front + [k], back);
    NonIndexKeysAppend(front, [k]);
    NonIndexKeysAppend(front, back);
    assert NonIndexKeys(front + [k]) == NonIndexKeys(front);
  }

  /** Re-assigning the keys of an object in their own order rebuilds the same key list. */
  lemma NextKeyInOrder(names: seq<string>, i: nat)
    requires ValidKeys(names) && i < |names|
    ensures ValidKeys(names[..i]) && names[i] !in names[..i]
    ensures InsertKey(names[..i], names[i]) == names[..i + 1]
  {
    assert names[..i + 1] == names[..i] + [names[i]];
    ValidPrefix(names, i);
    ValidPrefix(names, i + 1);
    InsertKeyAtEnd(names[..i], names[i]);
  }

  /** A key that already comes last in enumeration order is appended. */
  lemma InsertKeyAtEnd(ks: seq<string>, k: string)
    requires ValidKeys(ks) && k !in ks
    requires ValidKeys(ks + [k])
    ensures InsertKey(ks, k) == ks + [k]
  {
    var p := InsertPosition(ks, k);
    assert (ks + [k])[|ks|] == k;
    assert forall i :: 0 <= i < |ks| ==> (ks + [k])[i] == ks[i];
    assert p == |ks|;
    assert ks[..|ks|] == ks;
  }

  /** The keys after an entry is spliced in at position `p`. */
  lemma KeysOfSplice<V>(entries: seq<Entry<V>>, p: nat, e: Entry<V>)
    requires p <= |entries|
    ensures KeysOf(entries[..p] + [e] + entries[p..]) == KeysOf(entries)[..p] + [e.key] + KeysOf(entries)[p..]
  {
  }

  /** Splicing a new key in leaves every other lookup as it was. */
  lemma SplicedLookups<V>(o: Record<V>, r: Record<V>, k: string, v: V, p: nat)
    requires p <= |o.entries| && k !in Keys(o)
    requires r.entries == o.entries[..p] + [Entry(k, v)] + o.entries[p..]
    ensures Get(r, k) == Some(v)
    ensures forall k' {:trigger Get(r, k')} :: k' != k ==> Get(r, k') == Get(o, k')
  {
    assert r.entries[p] == Entry(k, v);
    forall k' | k' != k
      ensures Get(r, k') == Get(o, k')
    {
      var i := IndexOf(o.entries, k');
      if i < |o.entries| {
        var i' := if i < p then i else i + 1;
        assert r.entries[i'] == o.entries[i];
      } else {
        forall j | 0 <= j < |r.entries|
          ensures r.entries[j].key != k'
        {
          if j < p {
            assert r.entries[j] == o.entries[j];
          } else if j > p {
            assert r.entries[j] == o.entries[j - 1];
          }
        }
        assert k' !in Keys(r);
      }
    }
  }

  // ---------------------------------------------------------------------------
  // Objects
  // ---------------------------------------------------------------------------

  /** `{}` */
  function Empty<V>(): (o: Record<V>)
    ensures Keys(o) == []
  {
    Object([])
  }

  /** `Object.keys(o)` */
  function Keys<V>(o: Record<V>): (ks: seq<string>)
    ensures ValidKeys(ks)
    ensures |ks| == |o.entries|
    ensures forall i :: 0 <= i < |ks| ==> ks[i] == o.entries[i].key
  {
    KeysOf(o.entries)
  }

  /** The position of key `k` among `entries`, or `|entries|` when it is not there. */
  function IndexOf<V>(entries: seq<Entry<V>>, k: string): (i: nat)
    ensures i <= |entries|
    ensures i < |entries| ==> entries[i].key == k
    ensures i == |entries| ==> forall j :: 0 <= j < |entries| ==> entries[j].key != k
  {
    if |entries| == 0 then 0
    else if entries[0].key == k then 0
    else 1 + IndexOf(entries[1..], k)
  }

  /** `o[k]`: the value stored under `k`, `None` for `undefined`. */
  function Get<V>(o: Record<V>, k: string): (r: Option<V>)
    ensures r.Some? <==> k in Keys(o)
    ensures forall i :: 0 <= i < |o.entries| && o.entries[i].key == k ==> r == Some(o.entries[i].value)
  {
    var i := IndexOf(o.entries, k);
    if i < |o.entries| then Some(o.entries[i].value) else None
  }

  /** `o[k] = v`, on a copy of `o`. */
  function Put<V>(o: Record<V>, k: string, v: V): (r: Record<V>)
    ensures Keys(r) == if k in Keys(o) then Keys(o) else InsertKey(Keys(o), k)
    ensures Get(r, k) == Some(v)
    ensures forall k' {:trigger Get(r, k')} :: k' != k ==> Get(r, k') == Get(o, k')
  {
    var i := IndexOf(o.entries, k);
    if i < |o.entries| then
      var es := o.entries[i := Entry(k, v)];
      assert KeysOf(es) == Keys(o);
      var r: Record<V> := Object(es);
      r
    else
      var p := InsertPosition(Keys(o), k);
      var es := o.entries[..p] + [Entry(k, v)] + o.entries[p..];
      KeysOfSplice(o.entries, p, Entry(k, v));
      assert KeysOf(es) == InsertKey(Keys(o), k);
      var r: Record<V> := Object(es);
      SplicedLookups(o, r, k, v, p);
      r
  }

  /**
   * An object is determined by its keys in order and by the value under each key:
   * this is what makes `Keys` and `Get` a complete description of `Put`.
   */
  lemma {:induction false} Extensionality<V>(a: Record<V>, b: Record<V>)
    requires Keys(a) == Keys(b)
    requires forall k :: k in Keys(a) ==> Get(a, k) == Get(b, k)
    ensures a == b
  {
    assert |a.entries| == |b.entries|;
    forall i | 0 <= i < |a.entries|
      ensures a.entries[i] == b.entries[i]
    {
      var k := a.entries[i].key;
      assert Keys(a)[i] == k;
      assert Keys(b)[i] == k;
      assert Get(a, k) == Some(a.entries[i].value);
      assert Get(b, k) == Some(b.entries[i].value);
    }
    assert a.entries == b.entries;
  }

  /** `o["b"] = x; o["1"] = y` on `{}`: the array index "1" is listed before "b". */
  lemma ArrayIndexKeysComeFirst<V>(x: V, y: V)
    ensures Keys(Put(Put(Empty(), "b", x), "1", y)) == ["1", "b"]
  {
    InsertSmallKeys();
    var o := Put(Empty(), "b", x);
    assert Keys(o) == ["b"];
  }

  lemma InsertSmallKeys()
    ensures InsertKey([], "b") == ["b"]
    ensures InsertKey(["b"], "1") == ["1", "b"]
  {
    assert NumeralValue("1"[..0]) == 0;
    assert IsArrayIndex("1") && IndexValue("1") == 1;
    assert !IsArrayIndex("b");
    assert InsertPosition([], "b") == 0;
    assert InsertPosition(["b"], "1") == 0;
  }

  /** Each string of `ks` once, in the order of its first occurrence. */
  function FirstOccurrences(ks: seq<string>): (r: seq<string>)
    ensures forall k :: k in r <==> k in ks
    ensures forall i, j :: 0 <= i < j < |r| ==> r[i] != r[j]
  {
    if ks == [] then []
    else
      var init := FirstOccurrences(ks[..|ks| - 1]);
      var last := ks[|ks| - 1];
      assert forall k :: k in ks <==> k in ks[..|ks| - 1] || k == last;
      if last in init then init else init + [last]
  }

  /** The object that `o[k] = v` for each entry in turn, starting from `{}`, yields: `Object.fromEntries`. */
  function FromEntries<V>(pairs: seq<Entry<V>>): Record<V> {
    if pairs == [] then Empty()
    else
      var last := pairs[|pairs| - 1];
      Put(FromEntries(pairs[..|pairs| - 1]), last.key, last.value)
  }

  /** One more assignment: the object of a longer prefix of the entries. */
  lemma FromEntriesPrefix<V>(pairs: seq<Entry<V>>, i: nat)
    requires i < |pairs|
    ensures FromEntries(pairs[..i + 1]) == Put(FromEntries(pairs[..i]), pairs[i].key, pairs[i].value)
  {
    assert pairs[..i + 1][..i] == pairs[..i];
  }

  /**
   * Assigning entries in turn into `{}` leaves each assigned key once; the array
   * indices come first in ascending order, and the other keys follow in the
   * order of their first assignment.
   */
  lemma {:induction false} FromEntriesKeys<V>(pairs: seq<Entry<V>>)
    ensures forall k :: k in Keys(FromEntries(pairs)) <==> k in KeysOf(pairs)
    ensures ValidKeys(Keys(FromEntries(pairs)))
    ensures NonIndexKeys(Keys(FromEntries(pairs))) == NonIndexKeys(FirstOccurrences(KeysOf(pairs)))
  {
    if pairs != [] {
      var init := pairs[..|pairs| - 1];
      var last := pairs[|pairs| - 1];
      FromEntriesKeys(init);
      KeysOfInitAndLast(pairs);
      var o := FromEntries(init);
      if last.key in Keys(o) {
        AssignedOldKey(o, last.key, last.value, KeysOf(init));
      } else {
        AssignedNewKey(o, last.key, last.value, KeysOf(init));
      }
    }
  }

  /** The inductive step of `FromEntriesKeys` for a key assigned before. */
  lemma AssignedOldKey<V>(o: Record<V>, k: string, v: V, earlier: seq<string>)
    requires k in Keys(o)
    requires forall x :: x in Keys(o) <==> x in earlier
    requires NonIndexKeys(Keys(o)) == NonIndexKeys(FirstOccurrences(earlier))
    ensures forall x :: x in Keys(Put(o, k, v)) <==> x in earlier + [k]
    ensures NonIndexKeys(Keys(Put(o, k, v))) == NonIndexKeys(FirstOccurrences(earlier + [k]))
  {
    assert (earlier + [k])[..|earlier|] == earlier;
    assert FirstOccurrences(earlier + [k]) == FirstOccurrences(earlier);
  }

  /** The inductive step of `FromEntriesKeys` for a key not assigned before. */
  lemma AssignedNewKey<V>(o: Record<V>, k: string, v: V, earlier: seq<string>)
    requires k !in Keys(o)
    requires forall x :: x in Keys(o) <==> x in earlier
    requires NonIndexKeys(Keys(o)) == NonIndexKeys(FirstOccurrences(earlier))
    ensures forall x :: x in Keys(Put(o, k, v)) <==> x in earlier + [k]
    ensures NonIndexKeys(Keys(Put(o, k, v))) == NonIndexKeys(FirstOccurrences(earlier + [k]))
  {
    var firsts := FirstOccurrences(earlier);
    assert (earlier + [k])[..|earlier|] == earlier;
    assert k !in firsts;
    assert FirstOccurrences(earlier + [k]) == firsts + [k];
    assert Keys(Put(o, k, v)) == InsertKey(Keys(o), k);
    NonIndexKeysAppend(firsts, [k]);
  }

  /** The value under a key is the one of its last assignment. */
  lemma {:induction false} FromEntriesLastWins<V>(pairs: seq<Entry<V>>, j: nat)
    requires j < |pairs|
    requires forall j' :: j < j' < |pairs| ==> pairs[j'].key != pairs[j].key
    ensures Get(FromEntries(pairs), pairs[j].key) == Some(pairs[j].value)
  {
    if j < |pairs| - 1 {
      var init := pairs[..|pairs| - 1];
      FromEntriesLastWins(init, j);
    }
  }

  /** Without a repeated key, the object holds one entry per assignment, each under its own key. */
  lemma {:induction false} FromEntriesDistinct<V>(pairs: seq<Entry<V>>)
    requires NoRepeats(KeysOf(pairs))
    ensures |Keys(FromEntries(pairs))| == |pairs|
    ensures forall i :: 0 <= i < |pairs| ==> Get(FromEntries(pairs), pairs[i].key) == Some(pairs[i].value)
  {
    if pairs != [] {
      var init := pairs[..|pairs| - 1];
      var last := pairs[|pairs| - 1];
      KeysOfInitAndLast(pairs);
      FromEntriesDistinct(init);
      FromEntriesKeys(init);
      assert last.key !in KeysOf(init);
    }
    forall i | 0 <= i < |pairs|
      ensures Get(FromEntries(pairs), pairs[i].key) == Some(pairs[i].value)
    {
      FromEntriesLastWins(pairs, i);
    }
  }

  /** Entries whose keys are already distinct and in enumeration order are kept exactly as given. */
  lemma {:induction false} FromEntriesInOrder<V>(pairs: seq<Entry<V>>)
    requires ValidKeys(KeysOf(pairs))
    ensures FromEntries(pairs) == Object(pairs)
  {
    if pairs != [] {
      var init := pairs[..|pairs| - 1];
      KeysOfInitAndLast(pairs);
      ValidPrefix(KeysOf(pairs), |pairs| - 1);
      FromEntriesInOrder(init);
      InOrderStep(pairs);
    }
  }

  lemma InitAndLast<T>(s: seq<T>)
    requires s != []
    ensures s == s[..|s| - 1] + [s[|s| - 1]]
  {
  }

  lemma SplitAt<T>(s: seq<T>, p: nat)
    requires p <= |s|
    ensures s[..p] + s[p..] == s
  {
  }

  lemma AppendNothing<T>(s: seq<T>)
    ensures s + [] == s
  {
  }

  lemma SpliceAtEnd<T>(s: seq<T>, x: T)
    ensures s[..|s|] + [x] + s[|s|..] == s + [x]
  {
  }

  lemma KeysOfInitAndLast<V>(pairs: seq<Entry<V>>)
    requires pairs != []
    ensures KeysOf(pairs) == KeysOf(pairs[..|pairs| - 1]) + [pairs[|pairs| - 1].key]
    ensures KeysOf(pairs)[..|pairs| - 1] == KeysOf(pairs[..|pairs| - 1])
  {
  }

  lemma InOrderStep<V>(pairs: seq<Entry<V>>)
    requires pairs != [] && ValidKeys(KeysOf(pairs)) && ValidKeys(KeysOf(pairs[..|pairs| - 1]))
    requires FromEntries(pairs[..|pairs| - 1]) == Object(pairs[..|pairs| - 1])
    ensures FromEntries(pairs) == Object(pairs)
  {
    var init, last := pairs[..|pairs| - 1], pairs[|pairs| - 1];
    InitAndLast(pairs);
    var o: Record<V>, target: Record<V> := Object(init), Object(pairs);
    AppendInOrder(o, target, last);
  }

  /** Assigning a key that comes last in enumeration order appends its entry. */
  lemma AppendInOrder<V>(o: Record<V>, target: Record<V>, last: Entry<V>)
    requires target.entries == o.entries + [last]
    ensures Put(o, last.key, last.value) == target
  {
    var r := Put(o, last.key, last.value);
    AppendedKeys(o, target, last);
    InsertKeyAtEnd(Keys(o), last.key);
    AppendedLookups(o, target, last);
    forall k | k in Keys(r)
      ensures Get(r, k) == Get(target, k)
    {
      if k != last.key {
        assert Get(r, k) == Get(o, k);
      }
    }
    Extensionality(r, target);
  }

  lemma AppendedKeys<V>(o: Record<V>, target: Record<V>, last: Entry<V>)
    requires target.entries == o.entries + [last]
    ensures Keys(target) == Keys(o) + [last.key]
    ensures last.key !in Keys(o)
  {
    var ks, ko := Keys(target), Keys(o);
    assert ks == ko + [last.key];
    forall i | 0 <= i < |ko|
      ensures ko[i] != last.key
    {
      assert ko[i] == ks[i] && ks[|ks| - 1] == last.key;
    }
  }

  lemma AppendedLookups<V>(o: Record<V>, target: Record<V>, last: Entry<V>)
    requires target.entries == o.entries + [last]
    ensures Get(target, last.key) == Some(last.value)
    ensures forall k :: k in Keys(o) ==> Get(target, k) == Get(o, k)
  {
    assert target.entries[|o.entries|] == last;
    forall k | k in Keys(o)
      ensures Get(target, k) == Get(o, k)
    {
      var i :| 0 <= i < |o.entries| && o.entries[i].key == k;
      assert target.entries[i] == o.entries[i];
    }
  }

  /** After `o[k] = v`, every entry is the new one or an entry `o` already had. */
  lemma PutEntries<V>(o: Record<V>, k: string, v: V)
    ensures forall e :: e in Put(o, k, v).entries ==> e == Entry(k, v) || e in o.entries
  {
    forall e | e in Put(o, k, v).entries
      ensures e == Entry(k, v) || e in o.entries
    {
      if e.key == k {
        PutNewEntry(o, k, v, e);
      } else {
        PutOldEntry(o, k, v, e);
      }
    }
  }

  lemma PutNewEntry<V>(o: Record<V>, k: string, v: V, e: Entry<V>)
    requires e in Put(o, k, v).entries && e.key == k
    ensures e == Entry(k, v)
  {
    var r := Put(o, k, v);
    var i :| 0 <= i < |r.entries| && r.entries[i] == e;
    assert Get(r, k) == Some(e.value);
  }

  lemma PutOldEntry<V>(o: Record<V>, k: string, v: V, e: Entry<V>)
    requires e in Put(o, k, v).entries && e.key != k
    ensures e in o.entries
  {
    var r := Put(o, k, v);
    var i :| 0 <= i < |r.entries| && r.entries[i] == e;
    assert Get(r, e.key) == Some(e.value);
    assert Get(o, e.key) == Some(e.value);
    var i0 := IndexOf(o.entries, e.key);
    assert i0 < |o.entries|;
    assert o.entries[i0] == e;
  }

  /** Every entry of the object is one of the given entries. */
  lemma {:induction false} FromEntriesValues<V>(pairs: seq<Entry<V>>)
    ensures forall e :: e in FromEntries(pairs).entries ==> e in pairs
  {
    if pairs != [] {
      var init := pairs[..|pairs| - 1];
      var last := pairs[|pairs| - 1];
      FromEntriesValues(init);
      PutEntries(FromEntries(init), last.key, last.value);
    }
  }
}
