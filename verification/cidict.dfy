/**
 * `Dictionary<string, V>`, kept as its entries in enumeration order, with
 * the comparer it was built with: `StringComparer.OrdinalIgnoreCase`, which
 * every dictionary the program constructs uses, or the default ordinal one,
 * which a dictionary created by the JSON deserialiser gets.
 *
 * A key is found when it is the same as a stored key under the comparer.
 * Setting an existing key overwrites the value and keeps the stored key's
 * spelling. Setting a new key appends an entry. Removing drops the entry;
 * `ReplaceKey` covers the one place where the program adds a key straight
 * after a removal, which `Dictionary` puts into the freed slot.
 * Every operation takes the comparer last, case-insensitive by default.
 */
module CiDict {
  import opened Opt
  import opened Text

  type Dict<V> = seq<(string, V)>

  /** The key comparison a dictionary was built with. */
  datatype Comparer = IgnoreCase | Ordinal

  /** Two keys are the same key under `c`: equal up to ASCII case, or equal. */
  predicate SameKey(c: Comparer, a: string, b: string) {
    match c
    case IgnoreCase => EqualsIgnoreCase(a, b)
    case Ordinal => a == b
  }

  /** The stored keys, in enumeration order. */
  function Keys<V>(d: Dict<V>): (ks: seq<string>)
    ensures |ks| == |d|
    ensures forall i :: 0 <= i < |d| ==> ks[i] == d[i].0
  {
    seq(|d|, i requires 0 <= i < |d| => d[i].0)
  }

  /** No two stored keys are the same under `c`, which `Dictionary` guarantees. */
  predicate Valid<V>(d: Dict<V>, c: Comparer := IgnoreCase) {
    forall i, j :: 0 <= i < j < |d| ==> !SameKey(c, d[i].0, d[j].0)
  }

  /** No two keys of a list are the same under `c`. */
  predicate DistinctKeys(xs: seq<string>, c: Comparer := IgnoreCase) {
    forall i, j :: 0 <= i < j < |xs| ==> !SameKey(c, xs[i], xs[j])
  }

  /** Index of the entry whose key is the same as `k` under `c`. */
  function Find<V>(d: Dict<V>, k: string, c: Comparer := IgnoreCase): (r: Option<nat>)
    ensures r.Some? ==> r.value < |d| && SameKey(c, d[r.value].0, k)
    ensures r.Some? ==> forall j :: 0 <= j < r.value ==> !SameKey(c, d[j].0, k)
    ensures r.None? <==> forall j :: 0 <= j < |d| ==> !SameKey(c, d[j].0, k)
  {
    if |d| == 0 then None
    else if SameKey(c, d[0].0, k) then Some(0)
    else
      match Find(d[1..], k, c)
      case None => None
      case Some(i) => Some(i + 1)
  }

  /** `ContainsKey(k)`. */
  predicate ContainsKey<V>(d: Dict<V>, k: string, c: Comparer := IgnoreCase) {
    Find(d, k, c).Some?
  }

  /** `TryGetValue(k, out v)`. */
  function Get<V>(d: Dict<V>, k: string, c: Comparer := IgnoreCase): Option<V> {
    match Find(d, k, c)
    case Some(i) => Some(d[i].1)
    case None => None
  }

  /** `TryGetValue(k, out v) ? v : otherwise`. */
  function GetOr<V>(d: Dict<V>, k: string, otherwise: V, c: Comparer := IgnoreCase): V {
    match Get(d, k, c)
    case Some(v) => v
    case None => otherwise
  }

  /** The indexer setter `d[k] = v`. */
  function Put<V>(d: Dict<V>, k: string, v: V, c: Comparer := IgnoreCase): (r: Dict<V>)
    ensures Keys(r) == if ContainsKey(d, k, c) then Keys(d) else Keys(d) + [k]
  {
    match Find(d, k, c)
    case Some(i) => d[i := (d[i].0, v)]
    case None => d + [(k, v)]
  }

  /** `Remove(k)`. */
  function Remove<V>(d: Dict<V>, k: string, c: Comparer := IgnoreCase): (r: Dict<V>)
    ensures |r| == if ContainsKey(d, k, c) then |d| - 1 else |d|
  {
    match Find(d, k, c)
    case Some(i) => d[..i] + d[i + 1..]
    case None => d
  }

  /** Reading after writing: the written key gives the new value, every other key is unaffected. */
  lemma GetPut<V>(d: Dict<V>, k: string, v: V, k': string, c: Comparer := IgnoreCase)
    ensures Get(Put(d, k, v, c), k', c) == if SameKey(c, k, k') then Some(v) else Get(d, k', c)
  {
    if ContainsKey(d, k, c) {
      PutFound(d, k, v, k', c);
    } else {
      PutAppended(d, k, v, k', c);
    }
  }

  /** `GetPut` when the key is present: its entry is overwritten in place. */
  lemma PutFound<V>(d: Dict<V>, k: string, v: V, k': string, c: Comparer)
    requires ContainsKey(d, k, c)
    ensures Get(Put(d, k, v, c), k', c) == if SameKey(c, k, k') then Some(v) else Get(d, k', c)
  {
    var r := Put(d, k, v, c);
    assert Keys(r) == Keys(d);
    assert forall j :: 0 <= j < |r| ==> r[j].0 == d[j].0;
    FindSameKeys(d, r, k', c);
  }

  /** `GetPut` when the key is absent: the entry is appended. */
  lemma PutAppended<V>(d: Dict<V>, k: string, v: V, k': string, c: Comparer)
    requires !ContainsKey(d, k, c)
    ensures Get(Put(d, k, v, c), k', c) == if SameKey(c, k, k') then Some(v) else Get(d, k', c)
  {
    var r := Put(d, k, v, c);
    assert forall j :: 0 <= j < |d| ==> r[j] == d[j];
    if SameKey(c, k, k') {
      assert forall j :: 0 <= j < |d| ==> !SameKey(c, d[j].0, k');
      assert Find(r, k', c) == Some(|d|) by { FindLast(d, k, v, k', c); }
    } else {
      FindAppendOther(d, k, v, k', c);
    }
  }

  /** Every key after a write is the key at the same place before it, or the written key. */
  lemma PutKeysFrom<V>(d: Dict<V>, k: string, v: V, c: Comparer := IgnoreCase)
    ensures forall j :: 0 <= j < |Put(d, k, v, c)| ==> (j < |d| && Put(d, k, v, c)[j].0 == d[j].0) || Put(d, k, v, c)[j].0 == k
  {
    var r := Put(d, k, v, c);
    forall j | 0 <= j < |r| ensures (j < |d| && r[j].0 == d[j].0) || r[j].0 == k {
      assert r[j].0 == Keys(r)[j];
    }
  }

  /** Putting a different key leaves a lookup as it was. */
  lemma PutOther<V>(d: Dict<V>, key: string, v: V, k: string, c: Comparer := IgnoreCase)
    requires !SameKey(c, key, k)
    ensures Get(Put(d, key, v, c), k, c) == Get(d, k, c)
  {
    GetPut(d, key, v, k, c);
  }

  /** Putting the same key makes a lookup find the new value. */
  lemma PutSame<V>(d: Dict<V>, key: string, v: V, k: string, c: Comparer := IgnoreCase)
    requires SameKey(c, key, k)
    ensures Get(Put(d, key, v, c), k, c) == Some(v)
  {
    GetPut(d, key, v, k, c);
  }

  /** The first matching index is what `Find` returns. */
  lemma {:induction false} FindFirst<V>(d: Dict<V>, k: string, i: nat, c: Comparer := IgnoreCase)
    requires i < |d| && SameKey(c, d[i].0, k)
    requires forall j :: 0 <= j < i ==> !SameKey(c, d[j].0, k)
    ensures Find(d, k, c) == Some(i)
  {
    if i > 0 {
      assert !SameKey(c, d[0].0, k);
      assert forall j :: 0 <= j < i - 1 ==> d[1..][j] == d[j + 1];
      FindFirst(d[1..], k, i - 1, c);
    }
  }

  /** Two dictionaries with the same keys find every key at the same index. */
  lemma {:induction false} FindSameKeys<V>(d: Dict<V>, e: Dict<V>, k: string, c: Comparer := IgnoreCase)
    requires |d| == |e| && forall j :: 0 <= j < |d| ==> d[j].0 == e[j].0
    ensures Find(d, k, c) == Find(e, k, c)
  {
    if |d| > 0 {
      assert forall j :: 0 <= j < |d| - 1 ==> d[1..][j].0 == e[1..][j].0;
      FindSameKeys(d[1..], e[1..], k, c);
    }
  }

  /** Keys equal up to case are found at the same index of a case-insensitive dictionary. */
  lemma GetIgnoresCase<V>(d: Dict<V>, k: string, k': string)
    requires EqualsIgnoreCase(k, k')
    ensures Find(d, k) == Find(d, k')
    ensures Get(d, k) == Get(d, k')
  {
    match Find(d, k)
    case Some(i) =>
      FindFirst(d, k', i);
    case None =>
      assert forall j :: 0 <= j < |d| ==> !SameKey(IgnoreCase, d[j].0, k');
  }

  lemma FindLast<V>(d: Dict<V>, k: string, v: V, k': string, c: Comparer := IgnoreCase)
    requires !ContainsKey(d, k, c) && SameKey(c, k, k')
    ensures Find(d + [(k, v)], k', c) == Some(|d|)
  {
    var r := d + [(k, v)];
    forall j | 0 <= j < |d| ensures !SameKey(c, r[j].0, k') {
      assert r[j] == d[j];
      assert !SameKey(c, d[j].0, k);
    }
    FindFirst(r, k', |d|, c);
  }

  lemma FindAppendOther<V>(d: Dict<V>, k: string, v: V, k': string, c: Comparer := IgnoreCase)
    requires !SameKey(c, k, k')
    ensures Find(d + [(k, v)], k', c) == Find(d, k', c)
  {
    var r := d + [(k, v)];
    assert forall j :: 0 <= j < |d| ==> r[j] == d[j];
    match Find(d, k', c)
    case Some(i) =>
      FindFirst(r, k', i, c);
    case None =>
      assert forall j :: 0 <= j < |r| ==> !SameKey(c, r[j].0, k');
  }

  /** Writing keeps the keys distinct, and the written key is then present. */
  lemma PutValid<V>(d: Dict<V>, k: string, v: V, c: Comparer := IgnoreCase)
    requires Valid(d, c)
    ensures Valid(Put(d, k, v, c), c)
    ensures ContainsKey(Put(d, k, v, c), k, c)
  {
    var r := Put(d, k, v, c);
    GetPut(d, k, v, k, c);
    assert Keys(r) == if ContainsKey(d, k, c) then Keys(d) else Keys(d) + [k];
    forall i, j | 0 <= i < j < |r| ensures !SameKey(c, r[i].0, r[j].0) {
      assert r[i].0 == Keys(r)[i] && r[j].0 == Keys(r)[j];
      if j < |d| {
        assert Keys(d)[i] == d[i].0 && Keys(d)[j] == d[j].0;
      } else {
        assert Keys(d)[i] == d[i].0;
      }
    }
  }

  /** Removing a key drops exactly that key. */
  lemma GetRemove<V>(d: Dict<V>, k: string, k': string, c: Comparer := IgnoreCase)
    requires Valid(d, c)
    ensures Valid(Remove(d, k, c), c)
    ensures Get(Remove(d, k, c), k', c) == if SameKey(c, k, k') then None else Get(d, k', c)
  {
    match Find(d, k, c)
    case None =>
      if SameKey(c, k, k') {
        assert forall j :: 0 <= j < |d| ==> !SameKey(c, d[j].0, k');
      }
    case Some(i) =>
      DroppedValid(d, i, c);
      if SameKey(c, k, k') {
        DroppedSame(d, i, k', c);
      } else {
        DroppedOther(d, i, k', c);
      }
  }

  /** Entry `j` of `d` without entry `i` is entry `j` or `j + 1` of `d`. */
  lemma DroppedAt<V>(d: Dict<V>, i: nat, j: nat)
    requires i < |d| && j < |d| - 1
    ensures (d[..i] + d[i + 1..])[j] == d[if j < i then j else j + 1]
  {
  }

  /** Dropping an entry keeps the keys distinct. */
  lemma DroppedValid<V>(d: Dict<V>, i: nat, c: Comparer)
    requires Valid(d, c) && i < |d|
    ensures Valid(d[..i] + d[i + 1..], c)
  {
    var r := d[..i] + d[i + 1..];
    forall a, b | 0 <= a < b < |r| ensures !SameKey(c, r[a].0, r[b].0) {
      DroppedAt(d, i, a);
      DroppedAt(d, i, b);
    }
  }

  /** Dropping the entry of a key leaves nothing that key finds. */
  lemma DroppedSame<V>(d: Dict<V>, i: nat, k: string, c: Comparer)
    requires Valid(d, c) && i < |d| && SameKey(c, d[i].0, k)
    ensures Get(d[..i] + d[i + 1..], k, c) == None
  {
    var r := d[..i] + d[i + 1..];
    forall j | 0 <= j < |r| ensures !SameKey(c, r[j].0, k) {
      var j' := if j < i then j else j + 1;
      DroppedAt(d, i, j);
      assert !SameKey(c, d[j'].0, d[i].0) && !SameKey(c, d[i].0, d[j'].0);
    }
  }

  /** Dropping the entry of one key leaves every other key's lookup as it was. */
  lemma DroppedOther<V>(d: Dict<V>, i: nat, k: string, c: Comparer)
    requires Valid(d, c) && i < |d| && !SameKey(c, d[i].0, k)
    ensures Get(d[..i] + d[i + 1..], k, c) == Get(d, k, c)
  {
    var r := d[..i] + d[i + 1..];
    match Find(d, k, c) {
      case Some(m) =>
        assert m != i;
        var m' := if m < i then m else m - 1;
        DroppedAt(d, i, m');
        forall j | 0 <= j < m' ensures !SameKey(c, r[j].0, k) {
          DroppedAt(d, i, j);
        }
        FindFirst(r, k, m', c);
      case None =>
        forall j | 0 <= j < |r| ensures !SameKey(c, r[j].0, k) {
          DroppedAt(d, i, j);
        }
    }
  }

  /** Lookups see only the keys. */
  lemma SameKeysFind<V>(d: Dict<V>, e: Dict<V>, k: string, c: Comparer := IgnoreCase)
    requires Keys(d) == Keys(e)
    ensures Find(d, k, c) == Find(e, k, c)
  {
    forall j | 0 <= j < |d| ensures d[j].0 == e[j].0 {
      assert Keys(d)[j] == Keys(e)[j];
    }
    FindSameKeys(d, e, k, c);
  }

  /** Distinctness sees only the keys. */
  lemma SameKeysValid<V>(d: Dict<V>, e: Dict<V>, c: Comparer := IgnoreCase)
    requires Keys(d) == Keys(e)
    ensures Valid(d, c) ==> Valid(e, c)
  {
    forall i, j | 0 <= i < j < |e| && Valid(d, c) ensures !SameKey(c, e[i].0, e[j].0) {
      assert Keys(d)[i] == Keys(e)[i] && Keys(d)[j] == Keys(e)[j];
    }
  }

  /** Writing keeps a dictionary's keys distinct. */
  lemma PutKeepsValid<V>(d: Dict<V>, k: string, v: V, c: Comparer := IgnoreCase)
    ensures Valid(d, c) ==> Valid(Put(d, k, v, c), c)
  {
    if Valid(d, c) { PutValid(d, k, v, c); }
  }

  /** Removing keeps a dictionary's keys distinct. */
  lemma RemoveKeepsValid<V>(d: Dict<V>, k: string, c: Comparer := IgnoreCase)
    ensures Valid(d, c) ==> Valid(Remove(d, k, c), c)
  {
    if Valid(d, c) { GetRemove(d, k, k, c); }
  }

  /** A dictionary's keys, listed, hold no two that are the same key. */
  lemma ValidKeys<V>(d: Dict<V>, c: Comparer := IgnoreCase)
    requires Valid(d, c)
    ensures DistinctKeys(Keys(d), c)
  {
  }

  /** Keys distinct up to case are distinct. */
  lemma OrdinalOfDistinct(xs: seq<string>, c: Comparer)
    requires DistinctKeys(xs, c)
    ensures DistinctKeys(xs, Ordinal)
  {
    forall i, j | 0 <= i < j < |xs| ensures xs[i] != xs[j] {
      assert !SameKey(c, xs[i], xs[j]);
    }
  }

  /** Reordering keeps a list of keys distinct. */
  lemma PermutedDistinct(a: seq<string>, b: seq<string>, c: Comparer)
    requires multiset(a) == multiset(b) && DistinctKeys(a, c)
    ensures DistinctKeys(b, c)
  {
    OrdinalOfDistinct(a, c);
    forall i, j | 0 <= i < j < |b| ensures !SameKey(c, b[i], b[j]) {
      if b[i] == b[j] {
        TwiceCounted(b, i, j);
        CountedTwice(a, b[i]);
      } else {
        assert b[i] in multiset(a) && b[j] in multiset(a);
        var p :| 0 <= p < |a| && a[p] == b[i];
        var q :| 0 <= q < |a| && a[q] == b[j];
        assert p != q;
        if p < q {
          assert !SameKey(c, a[p], a[q]);
        } else {
          assert !SameKey(c, a[q], a[p]);
        }
      }
    }
  }

  /** After writing `k`, exactly the old keys and `k` are present. */
  lemma ContainsPut<V>(d: Dict<V>, k: string, v: V, k': string, c: Comparer := IgnoreCase)
    ensures ContainsKey(Put(d, k, v, c), k', c) <==> ContainsKey(d, k', c) || SameKey(c, k, k')
  {
    GetPut(d, k, v, k', c);
  }

  /** After removing `k`, exactly the old keys other than `k` are present. */
  lemma ContainsRemove<V>(d: Dict<V>, k: string, k': string, c: Comparer := IgnoreCase)
    requires Valid(d, c)
    ensures ContainsKey(Remove(d, k, c), k', c) <==> ContainsKey(d, k', c) && !SameKey(c, k, k')
  {
    GetRemove(d, k, k', c);
  }

  /** A present key and an absent one are not the same key. */
  lemma PresentAbsent<V>(d: Dict<V>, k: string, k': string, c: Comparer := IgnoreCase)
    requires ContainsKey(d, k, c) && !ContainsKey(d, k', c)
    ensures !SameKey(c, k, k')
  {
    var i := Find(d, k, c).value;
    assert !SameKey(c, d[i].0, k');
  }

  /**
   * `Remove(o)` followed by adding the absent key `n` with the removed value:
   * `Dictionary` gives the new entry the slot the removal freed, so the value
   * keeps its place under the new key.
   */
  function ReplaceKey<V>(d: Dict<V>, o: string, n: string, c: Comparer := IgnoreCase): (r: Dict<V>)
    requires ContainsKey(d, o, c)
    ensures |r| == |d|
  {
    var i := Find(d, o, c).value;
    d[i := (n, d[i].1)]
  }

  /**
   * Re-keying in a dictionary without the new key: the keys are the old ones
   * with `o`'s replaced by `n` in place, they stay distinct, `n` reads `o`'s
   * value, `o` reads nothing and every other key reads as before.
   */
  lemma GetReplaceKey<V>(d: Dict<V>, o: string, n: string, k: string, c: Comparer := IgnoreCase)
    requires Valid(d, c) && ContainsKey(d, o, c) && !ContainsKey(d, n, c)
    ensures Keys(ReplaceKey(d, o, n, c)) == Keys(d)[Find(d, o, c).value := n]
    ensures Valid(ReplaceKey(d, o, n, c), c)
    ensures Get(ReplaceKey(d, o, n, c), k, c) ==
      if SameKey(c, n, k) then Get(d, o, c)
      else if SameKey(c, o, k) then None
      else Get(d, k, c)
  {
    var i := Find(d, o, c).value;
    var r := ReplaceKey(d, o, n, c);
    ReplaceKeyValid(d, i, n, c);
    if SameKey(c, n, k) {
      ReplaceKeyFound(d, i, n, k, c);
    } else if SameKey(c, o, k) {
      ReplaceKeyGone(d, i, o, n, k, c);
    } else {
      ReplaceKeyOther(d, i, n, k, c);
    }
  }

  /** Replacing the key at `i` by one no stored key matches keeps the keys distinct. */
  lemma ReplaceKeyValid<V>(d: Dict<V>, i: nat, n: string, c: Comparer)
    requires Valid(d, c) && i < |d| && !ContainsKey(d, n, c)
    ensures Keys(d[i := (n, d[i].1)]) == Keys(d)[i := n]
    ensures Valid(d[i := (n, d[i].1)], c)
  {
    var r := d[i := (n, d[i].1)];
    forall a, b | 0 <= a < b < |r| ensures !SameKey(c, r[a].0, r[b].0) {
      if a == i {
        assert !SameKey(c, d[b].0, n);
      } else if b == i {
        assert !SameKey(c, d[a].0, n);
      }
    }
  }

  /** After the replacement the new key, and every key the same as it, finds entry `i`. */
  lemma ReplaceKeyFound<V>(d: Dict<V>, i: nat, n: string, k: string, c: Comparer)
    requires i < |d| && !ContainsKey(d, n, c) && SameKey(c, n, k)
    ensures Get(d[i := (n, d[i].1)], k, c) == Some(d[i].1)
  {
    var r := d[i := (n, d[i].1)];
    forall j | 0 <= j < i ensures !SameKey(c, r[j].0, k) {
      assert !SameKey(c, d[j].0, n);
    }
    FindFirst(r, k, i, c);
  }

  /** After the replacement no entry matches a key the same as the replaced one. */
  lemma ReplaceKeyGone<V>(d: Dict<V>, i: nat, o: string, n: string, k: string, c: Comparer)
    requires Valid(d, c) && i < |d| && SameKey(c, d[i].0, o) && SameKey(c, o, k) && !SameKey(c, n, k)
    ensures Get(d[i := (n, d[i].1)], k, c) == None
  {
    var r := d[i := (n, d[i].1)];
    forall j | 0 <= j < |r| ensures !SameKey(c, r[j].0, k) {
      if j != i {
        assert !SameKey(c, d[j].0, d[i].0) && !SameKey(c, d[i].0, d[j].0);
      }
    }
  }

  /** After the replacement a key the same as neither key reads as before. */
  lemma ReplaceKeyOther<V>(d: Dict<V>, i: nat, n: string, k: string, c: Comparer)
    requires i < |d| && !SameKey(c, d[i].0, k) && !SameKey(c, n, k)
    ensures Get(d[i := (n, d[i].1)], k, c) == Get(d, k, c)
  {
    var r := d[i := (n, d[i].1)];
    match Find(d, k, c) {
      case Some(m) =>
        FindFirst(r, k, m, c);
      case None =>
        assert forall j :: 0 <= j < |r| ==> !SameKey(c, r[j].0, k);
    }
  }
}
