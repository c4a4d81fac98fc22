/**
 * `process_entries` of src/lib.rs: fetch the secrets that the entries ask
 * for, put each fetched value into the entry that asked for it, keep the
 * entries that have a value, and let the overrides win. The fetching itself
 * is a parameter: a function from the list of secret ids to the list of
 * their values or an error.
 */
module Lib {
  import opened Wrappers
  import opened Errors
  import opened IndexMaps
  import opened Seqs

  /** An entry as `process_entries` reads it: a key, a value, and the id of a secret. */
  datatype Entry = Entry(key: string, value: Option<string>, secretId: Option<string>)

  /** The secret ids `process_entries` asks for, in entry order, one per entry that has one. */
  function SecretIds(es: seq<Entry>): (ids: seq<string>)
    ensures |ids| <= |es|
  {
    if es == [] then []
    else
      var last := es[|es| - 1];
      SecretIds(es[..|es| - 1]) + (if last.secretId.Some? then [last.secretId.value] else [])
  }

  /** How many of the first `i` entries have a secret id. */
  function Rank(es: seq<Entry>, i: nat): nat
    requires i <= |es|
  {
    |SecretIds(es[..i])|
  }

  lemma RankStep(es: seq<Entry>, i: nat)
    requires i < |es|
    ensures Rank(es, i + 1) == Rank(es, i) + (if es[i].secretId.Some? then 1 else 0)
    ensures es[i].secretId.Some? ==> SecretIds(es[..i + 1]) == SecretIds(es[..i]) + [es[i].secretId.value]
  {
    assert es[..i + 1][..i] == es[..i];
  }

  lemma {:induction false} RankMonotone(es: seq<Entry>, i: nat, j: nat)
    requires i <= j <= |es|
    ensures Rank(es, i) <= Rank(es, j)
    decreases j - i
  {
    if i < j {
      RankStep(es, j - 1);
      RankMonotone(es, i, j - 1);
    }
  }

  /** The ids of the first `n` entries are the first ids. */
  lemma {:induction false} SecretIdsPrefix(es: seq<Entry>, n: nat)
    requires n <= |es|
    ensures Rank(es, n) <= |SecretIds(es)|
    ensures SecretIds(es)[..Rank(es, n)] == SecretIds(es[..n])
    decreases |es|
  {
    if n == |es| {
      assert es[..n] == es;
    } else {
      var init := es[..|es| - 1];
      SecretIdsPrefix(init, n);
      assert init[..n] == es[..n];
    }
  }

  /** An entry with a secret id asks for the id at its rank. */
  lemma SecretIdAt(es: seq<Entry>, i: nat)
    requires i < |es| && es[i].secretId.Some?
    ensures Rank(es, i) < |SecretIds(es)|
    ensures SecretIds(es)[Rank(es, i)] == es[i].secretId.value
  {
    RankStep(es, i);
    SecretIdsPrefix(es, i + 1);
  }

  /** Every id asked for is the id of the entry at that rank: no id is added or merged. */
  lemma {:induction false} SecretIdOrigin(es: seq<Entry>, k: nat)
    requires k < |SecretIds(es)|
    ensures exists i :: 0 <= i < |es| && es[i].secretId.Some? && Rank(es, i) == k && SecretIds(es)[k] == es[i].secretId.value
    decreases |es|
  {
    var n := |es| - 1;
    var init := es[..n];
    if k < |SecretIds(init)| {
      SecretIdOrigin(init, k);
      var i :| 0 <= i < |init| && init[i].secretId.Some? && Rank(init, i) == k && SecretIds(init)[k] == init[i].secretId.value;
      assert init[..i] == es[..i];
      assert es[i] == init[i];
    } else {
      assert es[..n] == init;
      assert es[n].secretId.Some? && Rank(es, n) == k;
    }
  }

  /**
   * The entries after the fetched values are zipped in: the `k`-th entry with
   * a secret id takes the `k`-th fetched value, as long as there is one.
   */
  function Merged(entries: seq<Entry>, secrets: seq<string>): seq<Entry> {
    seq(|entries|, i requires 0 <= i < |entries| =>
      if entries[i].secretId.Some? && Rank(entries, i) < |secrets|
      then entries[i].(value := Some(secrets[Rank(entries, i)]))
      else entries[i])
  }

  /**
   * What the zip does to one entry: the entry that asked for the `k`-th id
   * takes the `k`-th fetched value; an entry without a secret id, or one
   * past the end of the fetched values, keeps its value.
   */
  lemma MergedAt(entries: seq<Entry>, secrets: seq<string>, i: nat)
    requires i < |entries|
    ensures |Merged(entries, secrets)| == |entries|
    ensures Merged(entries, secrets)[i].key == entries[i].key
    ensures Merged(entries, secrets)[i].secretId == entries[i].secretId
    ensures entries[i].secretId.None? ==> Merged(entries, secrets)[i].value == entries[i].value
    ensures entries[i].secretId.Some? ==>
      var k := Rank(entries, i);
      && k < |SecretIds(entries)|
      && SecretIds(entries)[k] == entries[i].secretId.value
      && Merged(entries, secrets)[i].value == (if k < |secrets| then Some(secrets[k]) else entries[i].value)
  {
    if entries[i].secretId.Some? {
      SecretIdAt(entries, i);
    }
  }

  /** Once the fetched values run out, the remaining entries are unchanged. */
  lemma MergedTail(entries: seq<Entry>, secrets: seq<string>, i: nat)
    requires i <= |entries| && Rank(entries, i) >= |secrets|
    ensures Merged(entries, secrets)[i..] == entries[i..]
  {
    forall j | i <= j < |entries|
      ensures Merged(entries, secrets)[j] == entries[j]
    {
      RankMonotone(entries, i, j);
    }
  }

  /** The zip, updating the entries in place. */
  method MergeSecrets(entries: seq<Entry>, secrets: seq<string>) returns (merged: seq<Entry>)
    ensures merged == Merged(entries, secrets)
  {
    merged := entries;
    var i, j := 0, 0;
    while i < |merged| && j < |secrets|
      invariant 0 <= i <= |entries| && |merged| == |entries|
      invariant j == Rank(entries, i) && j <= |secrets|
      invariant merged[..i] == Merged(entries, secrets)[..i]
      invariant merged[i..] == entries[i..]
      decreases |entries| - i
    {
      RankStep(entries, i);
      assert merged[i] == entries[i];
      if merged[i].secretId.Some? {
        merged := merged[i := merged[i].(value := Some(secrets[j]))];
        j := j + 1;
      }
      assert merged[..i + 1] == Merged(entries, secrets)[..i + 1];
      i := i + 1;
    }
    if i < |merged| {
      MergedTail(entries, secrets, i);
      assert merged == merged[..i] + merged[i..];
      assert Merged(entries, secrets) == Merged(entries, secrets)[..i] + Merged(entries, secrets)[i..];
    }
  }

  /** The key and value of each entry that has a value (the `filter_map` before `collect`). */
  function Present(es: seq<Entry>): (ps: seq<(string, string)>)
    ensures forall p :: p in ps <==> exists i :: 0 <= i < |es| && es[i].value.Some? && p == (es[i].key, es[i].value.value)
  {
    if es == [] then []
    else
      var init := es[..|es| - 1];
      var last := es[|es| - 1];
      var ps := Present(init) + (if last.value.Some? then [(last.key, last.value.value)] else []);
      assert forall i :: 0 <= i < |init| ==> init[i] == es[i];
      ps
  }

  /** How many of the first `i` entries have a value. */
  function ValueRank(es: seq<Entry>, i: nat): nat
    requires i <= |es|
  {
    |Present(es[..i])|
  }

  lemma ValueRankStep(es: seq<Entry>, i: nat)
    requires i < |es|
    ensures ValueRank(es, i + 1) == ValueRank(es, i) + (if es[i].value.Some? then 1 else 0)
    ensures es[i].value.Some? ==> Present(es[..i + 1]) == Present(es[..i]) + [(es[i].key, es[i].value.value)]
  {
    assert es[..i + 1][..i] == es[..i];
  }

  lemma {:induction false} ValueRankMonotone(es: seq<Entry>, i: nat, j: nat)
    requires i <= |es| && j <= |es|
    ensures i <= j ==> ValueRank(es, i) <= ValueRank(es, j)
    ensures i < j && es[i].value.Some? ==> ValueRank(es, i) < ValueRank(es, j)
    decreases j
  {
    if i < j {
      ValueRankStep(es, j - 1);
      ValueRankMonotone(es, i, j - 1);
    }
  }

  /** The pairs of the first `n` entries are the first pairs. */
  lemma {:induction false} PresentPrefix(es: seq<Entry>, n: nat)
    requires n <= |es|
    ensures ValueRank(es, n) <= |Present(es)|
    ensures Present(es)[..ValueRank(es, n)] == Present(es[..n])
    decreases |es|
  {
    if n == |es| {
      assert es[..n] == es;
    } else {
      var init := es[..|es| - 1];
      PresentPrefix(init, n);
      assert init[..n] == es[..n];
    }
  }

  /** An entry with a value contributes its pair at its value rank. */
  lemma PresentAt(es: seq<Entry>, i: nat)
    requires i < |es| && es[i].value.Some?
    ensures ValueRank(es, i) < |Present(es)|
    ensures Present(es)[ValueRank(es, i)] == (es[i].key, es[i].value.value)
  {
    ValueRankStep(es, i);
    PresentPrefix(es, i + 1);
  }

  /** Every collected pair is that of the entry with a value at its rank: one pair per such entry. */
  lemma {:induction false} PresentOrigin(es: seq<Entry>, k: nat)
    requires k < |Present(es)|
    ensures exists i :: 0 <= i < |es| && es[i].value.Some? && ValueRank(es, i) == k && Present(es)[k] == (es[i].key, es[i].value.value)
    decreases |es|
  {
    var n := |es| - 1;
    var init := es[..n];
    if k < |Present(init)| {
      PresentOrigin(init, k);
      var i :| 0 <= i < |init| && init[i].value.Some? && ValueRank(init, i) == k && Present(init)[k] == (init[i].key, init[i].value.value);
      assert init[..i] == es[..i];
      assert es[i] == init[i];
    } else {
      assert es[..n] == init;
      assert es[n].value.Some? && ValueRank(es, n) == k;
    }
  }

  /** Of two entries with values, the earlier one's pair comes first. */
  lemma PresentInOrder(es: seq<Entry>, i: nat, j: nat)
    requires i < j < |es| && es[i].value.Some? && es[j].value.Some?
    ensures ValueRank(es, i) < ValueRank(es, j) < |Present(es)|
    ensures Present(es)[ValueRank(es, i)] == (es[i].key, es[i].value.value)
    ensures Present(es)[ValueRank(es, j)] == (es[j].key, es[j].value.value)
  {
    ValueRankMonotone(es, i, j);
    PresentAt(es, i);
    PresentAt(es, j);
  }

  /** The map `process_entries` returns once the fetch has succeeded. */
  function Resolve(entries: seq<Entry>, overrides: IndexMap<string, string>, secrets: seq<string>): IndexMap<string, string> {
    Extend(FromPairs(Present(Merged(entries, secrets))), overrides)
  }

  /**
   * `process_entries`: a failed fetch is returned as it is; otherwise the
   * result is `Resolve` of the fetched values.
   */
  method ProcessEntries(entries: seq<Entry>, overrides: IndexMap<string, string>,
                        fetch: seq<string> -> Result<seq<string>, Error>)
    returns (r: Result<IndexMap<string, string>, Error>)
    ensures fetch(SecretIds(entries)).Failure? ==> r == Failure(fetch(SecretIds(entries)).error)
    ensures fetch(SecretIds(entries)).Success? ==> r == Success(Resolve(entries, overrides, fetch(SecretIds(entries)).value))
  {
    var fetched := fetch(SecretIds(entries));
    if fetched.Failure? {
      return Failure(fetched.error);
    }
    var secrets := fetched.value;
    var merged := MergeSecrets(entries, secrets);
    var result := FromPairs(Present(merged));
    var k := 0;
    while k < |overrides|
      invariant 0 <= k <= |overrides|
      invariant result == Extend(FromPairs(Present(merged)), overrides[..k])
    {
      assert overrides[..k + 1][..k] == overrides[..k];
      result := Insert(result, overrides[k].0, overrides[k].1);
      k := k + 1;
    }
    assert overrides[..k] == overrides;
    return Success(result);
  }

  // What `process_entries` promises about its result.

  /** One more entry: an entry with a value is one insert more. */
  lemma PresentStep(es: seq<Entry>)
    requires es != []
    ensures FromPairs(Present(es)) ==
      var last := es[|es| - 1];
      if last.value.Some? then Insert(FromPairs(Present(es[..|es| - 1])), last.key, last.value.value)
      else FromPairs(Present(es[..|es| - 1]))
  {
    var init := Present(es[..|es| - 1]);
    var last := es[|es| - 1];
    if last.value.Some? {
      assert (init + [(last.key, last.value.value)])[..|init|] == init;
    } else {
      assert Present(es) == init;
    }
  }

  /** The last entry with a value for a key decides the value collected for it. */
  lemma {:induction false} CollectLastWins(es: seq<Entry>, i: nat)
    requires i < |es| && es[i].value.Some?
    requires forall j :: i < j < |es| && es[j].key == es[i].key ==> es[j].value.None?
    ensures Get(FromPairs(Present(es)), es[i].key) == es[i].value
    decreases |es|
  {
    PresentStep(es);
    if i < |es| - 1 {
      var init := es[..|es| - 1];
      assert init[i] == es[i];
      CollectLastWins(init, i);
    }
  }

  /** A key none of whose entries has a value is not collected. */
  lemma CollectDropsEmpty(es: seq<Entry>, k: string)
    requires forall i :: 0 <= i < |es| && es[i].key == k ==> es[i].value.None?
    ensures Get(FromPairs(Present(es)), k) == None
  {
    ExtendUntouched([], Present(es), k);
  }

  /** An override decides the value of its key. */
  lemma OverrideWins(entries: seq<Entry>, overrides: IndexMap<string, string>, secrets: seq<string>, i: nat)
    requires UniqueKeys(overrides) && i < |overrides|
    ensures Get(Resolve(entries, overrides, secrets), overrides[i].0) == Some(overrides[i].1)
  {
    ExtendLastWins(FromPairs(Present(Merged(entries, secrets))), overrides, i);
  }

  /**
   * A key without an override has the value of its last entry that has a
   * value once the fetched values are in.
   */
  lemma EntryValueKept(entries: seq<Entry>, overrides: IndexMap<string, string>, secrets: seq<string>, i: nat)
    requires i < |entries| && Merged(entries, secrets)[i].value.Some?
    requires entries[i].key !in Keys(overrides)
    requires forall j :: i < j < |entries| && entries[j].key == entries[i].key ==> Merged(entries, secrets)[j].value.None?
    ensures Get(Resolve(entries, overrides, secrets), entries[i].key) == Merged(entries, secrets)[i].value
  {
    var merged := Merged(entries, secrets);
    ExtendUntouched(FromPairs(Present(merged)), overrides, entries[i].key);
    CollectLastWins(merged, i);
  }

  /**
   * A key without an override none of whose entries has a value, once the
   * fetched values are in, is not in the result.
   */
  lemma EntryDropped(entries: seq<Entry>, overrides: IndexMap<string, string>, secrets: seq<string>, k: string)
    requires k !in Keys(overrides)
    requires forall i :: 0 <= i < |entries| && entries[i].key == k ==> Merged(entries, secrets)[i].value.None?
    ensures Get(Resolve(entries, overrides, secrets), k) == None
  {
    var merged := Merged(entries, secrets);
    ExtendUntouched(FromPairs(Present(merged)), overrides, k);
    CollectDropsEmpty(merged, k);
  }

  /**
   * The order of the result: first the collected keys, in the order in which
   * they first occur among the entries that have a value; then the override
   * keys that are new, in override order. An override of an existing key
   * leaves it where it was.
   */
  lemma ResolveKeyOrder(entries: seq<Entry>, overrides: IndexMap<string, string>, secrets: seq<string>)
    ensures KeysExtended([], FromPairs(Present(Merged(entries, secrets))), Present(Merged(entries, secrets)))
    ensures KeysExtended(FromPairs(Present(Merged(entries, secrets))), Resolve(entries, overrides, secrets), overrides)
  {
    var base := FromPairs(Present(Merged(entries, secrets)));
    ExtendKeys([], Present(Merged(entries, secrets)));
    ExtendKeys(base, overrides);
  }

  /** Entry `i` has a value and no earlier entry with a value has its key. */
  ghost predicate FirstWithValue(es: seq<Entry>, i: nat)
    requires i < |es|
  {
    es[i].value.Some? && forall j :: 0 <= j < i && es[j].value.Some? ==> es[j].key != es[i].key
  }

  /** The first entry with a value for a key puts that key first at its value rank. */
  lemma FirstWithValueAtRank(es: seq<Entry>, i: nat)
    requires i < |es| && FirstWithValue(es, i)
    ensures es[i].key in Keys(Present(es))
    ensures IndexOf(Keys(Present(es)), es[i].key) == ValueRank(es, i)
  {
    var ks := Keys(Present(es));
    PresentAt(es, i);
    forall k | 0 <= k < ValueRank(es, i)
      ensures ks[k] != es[i].key
    {
      PresentOrigin(es, k);
      var j :| 0 <= j < |es| && es[j].value.Some? && ValueRank(es, j) == k && Present(es)[k] == (es[j].key, es[j].value.value);
      ValueRankMonotone(es, i, j);
    }
    IndexOfIs(ks, es[i].key, ValueRank(es, i));
  }

  /**
   * Collected keys follow the entries: of two keys, the one whose first
   * entry with a value comes earlier comes first.
   */
  lemma CollectOrder(es: seq<Entry>, i: nat, j: nat)
    requires i < j < |es| && FirstWithValue(es, i) && FirstWithValue(es, j)
    ensures es[i].key in Keys(FromPairs(Present(es))) && es[j].key in Keys(FromPairs(Present(es)))
    ensures IndexOf(Keys(FromPairs(Present(es))), es[i].key) < IndexOf(Keys(FromPairs(Present(es))), es[j].key)
  {
    var ps := Present(es);
    var t := Keys(FromPairs(ps));
    FromPairsSpec(ps);
    assert t[0..] == t;
    FirstWithValueAtRank(es, i);
    FirstWithValueAtRank(es, j);
    ValueRankMonotone(es, i, j);
    FirstSeenPositions(t, Keys(ps), es[i].key, es[j].key);
  }

  /**
   * The result lists the keys of the merged entries in entry order: of two
   * keys, the one whose first merged entry with a value comes earlier comes
   * first, overrides or not.
   */
  lemma ResolveEntryOrder(entries: seq<Entry>, overrides: IndexMap<string, string>, secrets: seq<string>, i: nat, j: nat)
    requires i < j < |entries|
    requires FirstWithValue(Merged(entries, secrets), i) && FirstWithValue(Merged(entries, secrets), j)
    ensures entries[i].key in Keys(Resolve(entries, overrides, secrets))
    ensures entries[j].key in Keys(Resolve(entries, overrides, secrets))
    ensures IndexOf(Keys(Resolve(entries, overrides, secrets)), entries[i].key)
          < IndexOf(Keys(Resolve(entries, overrides, secrets)), entries[j].key)
  {
    var es := Merged(entries, secrets);
    var base := FromPairs(Present(es));
    assert es[i].key == entries[i].key && es[j].key == entries[j].key;
    CollectOrder(es, i, j);
    FromPairsSpec(Present(es));
    ExtendKeepsPosition(base, overrides, es[i].key);
    ExtendKeepsPosition(base, overrides, es[j].key);
  }
}
