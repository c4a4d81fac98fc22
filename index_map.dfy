/**
 * The insertion-ordered map of the `indexmap` crate, as far as the program
 * uses it: `insert` (a new key goes last, an existing key keeps its place and
 * takes the new value), `extend`, and `collect` from a sequence of pairs.
 * A map is the sequence of its pairs in iteration order.
 */
module IndexMaps {
  import opened Wrappers
  import opened Seqs

  type IndexMap<K, V> = seq<(K, V)>

  /** The first components of a sequence of pairs, in order. */
  function Keys<K, V>(ps: seq<(K, V)>): (ks: seq<K>)
    ensures |ks| == |ps|
    ensures forall i :: 0 <= i < |ps| ==> ks[i] == ps[i].0
  {
    seq(|ps|, i requires 0 <= i < |ps| => ps[i].0)
  }

  /** The second components of a sequence of pairs, in order (`into_values`). */
  function Values<K, V>(ps: seq<(K, V)>): (vs: seq<V>)
    ensures |vs| == |ps|
    ensures forall i :: 0 <= i < |ps| ==> vs[i] == ps[i].1
  {
    seq(|ps|, i requires 0 <= i < |ps| => ps[i].1)
  }

  /** No key occurs twice. */
  ghost predicate UniqueKeys<K, V>(m: seq<(K, V)>) {
    forall i, j :: 0 <= i < j < |m| ==> m[i].0 != m[j].0
  }

  /**
   * `t` lists elements of `s`, each once, in the order in which they first
   * occur in `s`.
   */
  ghost predicate InFirstSeenOrder<T>(t: seq<T>, s: seq<T>) {
    && (forall i :: 0 <= i < |t| ==> t[i] in s)
    && (forall i, j :: 0 <= i < j < |t| ==> t[i] in s && t[j] in s && IndexOf(s, t[i]) < IndexOf(s, t[j]))
  }

  /** In a first-seen listing, of two listed elements the one seen first in `s` comes first. */
  lemma FirstSeenPositions<T>(t: seq<T>, s: seq<T>, x: T, y: T)
    requires InFirstSeenOrder(t, s) && x in t && y in t && x in s && y in s
    requires IndexOf(s, x) < IndexOf(s, y)
    ensures IndexOf(t, x) < IndexOf(t, y)
  {
    var a, b := IndexOf(t, x), IndexOf(t, y);
    assert t[a] == x && t[b] == y;
  }

  /** The value stored under `k` (`IndexMap::get`). */
  function Get<K(==,!new), V>(m: IndexMap<K, V>, k: K): Option<V> {
    if k in Keys(m) then Some(m[IndexOf(Keys(m), k)].1) else None
  }

  /**
   * `IndexMap::insert`: an existing key keeps its position and takes the new
   * value; a new key is appended.
   */
  function Insert<K(==,!new), V>(m: IndexMap<K, V>, k: K, v: V): (r: IndexMap<K, V>)
    ensures Get(r, k) == Some(v)
    ensures forall k' :: k' != k ==> Get(r, k') == Get(m, k')
    ensures k in Keys(m) ==> Keys(r) == Keys(m)
    ensures k !in Keys(m) ==> Keys(r) == Keys(m) + [k]
    ensures UniqueKeys(m) ==> UniqueKeys(r)
    ensures forall p :: p in r ==> p in m || p == (k, v)
  {
    if k in Keys(m) then
      var i := IndexOf(Keys(m), k);
      var r := m[i := (k, v)];
      assert Keys(r) == Keys(m);
      r
    else
      var r := m + [(k, v)];
      assert Keys(r) == Keys(m) + [k];
      forall k' | k' != k && k' in Keys(m)
        ensures IndexOf(Keys(r), k') == IndexOf(Keys(m), k')
      {
        IndexOfPrefix(Keys(m), [k], k');
      }
      r
  }

  /**
   * `extend` with the pairs `ps`, one `insert` after another; `collect` into
   * an IndexMap is `Extend([], ps)`.
   */
  function Extend<K(==,!new), V>(m: IndexMap<K, V>, ps: seq<(K, V)>): IndexMap<K, V>
    decreases |ps|
  {
    if ps == [] then m
    else
      var last := ps[|ps| - 1];
      Insert(Extend(m, ps[..|ps| - 1]), last.0, last.1)
  }

  function FromPairs<K(==,!new), V>(ps: seq<(K, V)>): IndexMap<K, V> {
    Extend([], ps)
  }

  /** One pair more is one `insert` more. */
  lemma ExtendSnoc<K(!new), V>(m: IndexMap<K, V>, ps: seq<(K, V)>, p: (K, V))
    ensures Extend(m, ps + [p]) == Insert(Extend(m, ps), p.0, p.1)
  {
    assert (ps + [p])[..|ps|] == ps;
  }

  lemma KeysPrefix<K, V>(ps: seq<(K, V)>, n: nat)
    requires n <= |ps|
    ensures Keys(ps[..n]) == Keys(ps)[..n]
  {
  }

  /** In a map without repeated keys, the pair at position `i` is what `Get` finds. */
  lemma GetAt<K(!new), V>(m: IndexMap<K, V>, i: nat)
    requires UniqueKeys(m) && i < |m|
    ensures Get(m, m[i].0) == Some(m[i].1)
  {
    IndexOfIs(Keys(m), m[i].0, i);
  }

  /** The last pair for a key decides the value stored under it. */
  lemma {:induction false} ExtendLastWins<K(!new), V>(m: IndexMap<K, V>, ps: seq<(K, V)>, i: nat)
    requires i < |ps|
    requires forall j :: i < j < |ps| ==> ps[j].0 != ps[i].0
    ensures Get(Extend(m, ps), ps[i].0) == Some(ps[i].1)
    decreases |ps|
  {
    if i < |ps| - 1 {
      ExtendLastWins(m, ps[..|ps| - 1], i);
    }
  }

  /** A key that no pair mentions keeps what it had. */
  lemma {:induction false} ExtendUntouched<K(!new), V>(m: IndexMap<K, V>, ps: seq<(K, V)>, k: K)
    requires k !in Keys(ps)
    ensures Get(Extend(m, ps), k) == Get(m, k)
    decreases |ps|
  {
    if ps != [] {
      var init := ps[..|ps| - 1];
      assert Keys(init) == Keys(ps)[..|ps| - 1];
      ExtendUntouched(m, init, k);
    }
  }

  /** Every pair of the result is a pair of the map or one of the new pairs. */
  lemma {:induction false} ExtendPairsFrom<K(!new), V>(m: IndexMap<K, V>, ps: seq<(K, V)>)
    ensures forall p :: p in Extend(m, ps) ==> p in m || p in ps
    decreases |ps|
  {
    if ps != [] {
      var init := ps[..|ps| - 1];
      ExtendPairsFrom(m, init);
      assert forall p :: p in init ==> p in ps;
    }
  }

  /**
   * What `Extend(m, ps)` does to the keys: those of `m` keep their positions;
   * after them come the keys of `ps` that `m` lacks, each once, in the order
   * in which they first occur in `ps`.
   */
  ghost predicate KeysExtended<K(!new), V>(m: IndexMap<K, V>, r: IndexMap<K, V>, ps: seq<(K, V)>) {
    && UniqueKeys(r)
    && |m| <= |r|
    && Keys(r)[..|m|] == Keys(m)
    && (forall k :: k in Keys(r)[|m|..] <==> k in Keys(ps) && k !in Keys(m))
    && InFirstSeenOrder(Keys(r)[|m|..], Keys(ps))
  }

  /** One `insert` more keeps `KeysExtended`. */
  lemma InsertKeysExtended<K(!new), V>(m: IndexMap<K, V>, c: IndexMap<K, V>, init: seq<(K, V)>, p: (K, V))
    requires KeysExtended(m, c, init)
    ensures KeysExtended(m, Insert(c, p.0, p.1), init + [p])
  {
    var ps := init + [p];
    var r := Insert(c, p.0, p.1);
    var t := Keys(c)[|m|..];
    assert Keys(c) == Keys(m) + t;
    assert Keys(ps) == Keys(init) + [p.0];
    forall x | x in Keys(init)
      ensures IndexOf(Keys(ps), x) == IndexOf(Keys(init), x)
    {
      IndexOfPrefix(Keys(init), [p.0], x);
    }
    if p.0 in Keys(c) {
      assert Keys(r)[|m|..] == t;
    } else {
      assert p.0 !in Keys(init);
      assert Keys(r) == Keys(m) + (t + [p.0]);
      assert Keys(r)[|m|..] == t + [p.0];
      IndexOfIs(Keys(ps), p.0, |init|);
    }
  }

  lemma {:induction false} ExtendKeys<K(!new), V>(m: IndexMap<K, V>, ps: seq<(K, V)>)
    requires UniqueKeys(m)
    ensures KeysExtended(m, Extend(m, ps), ps)
    decreases |ps|
  {
    if ps == [] {
      assert Keys(m)[|m|..] == [];
    } else {
      var n := |ps| - 1;
      ExtendKeys(m, ps[..n]);
      assert ps == ps[..n] + [ps[n]];
      InsertKeysExtended(m, Extend(m, ps[..n]), ps[..n], ps[n]);
    }
  }

  /** `extend` leaves every key already in the map at its position. */
  lemma ExtendKeepsPosition<K(!new), V>(m: IndexMap<K, V>, ps: seq<(K, V)>, k: K)
    requires UniqueKeys(m) && k in Keys(m)
    ensures k in Keys(Extend(m, ps)) && IndexOf(Keys(Extend(m, ps)), k) == IndexOf(Keys(m), k)
  {
    var ks := Keys(Extend(m, ps));
    ExtendKeys(m, ps);
    assert ks == Keys(m) + ks[|m|..];
    IndexOfPrefix(Keys(m), ks[|m|..], k);
  }

  /** No later pair has the key of pair `i`. */
  ghost predicate IsLastFor<K, V>(ps: seq<(K, V)>, i: nat)
    requires i < |ps|
  {
    forall j :: i < j < |ps| ==> ps[j].0 != ps[i].0
  }

  /**
   * `collect` into an IndexMap: each key once, in the order of its first
   * pair, holding the value of its last pair.
   */
  lemma FromPairsSpec<K(!new), V>(ps: seq<(K, V)>)
    ensures KeysExtended([], FromPairs(ps), ps)
    ensures forall i :: 0 <= i < |ps| && IsLastFor(ps, i) ==> Get(FromPairs(ps), ps[i].0) == Some(ps[i].1)
  {
    ExtendKeys([], ps);
    forall i | 0 <= i < |ps| && IsLastFor(ps, i)
      ensures Get(FromPairs(ps), ps[i].0) == Some(ps[i].1)
    {
      ExtendLastWins([], ps, i);
    }
  }
}
