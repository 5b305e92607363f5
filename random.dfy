/** The selection part of `random_item`: equal-chance mode, which draws
    from a per-artist pool, and uniform mode, which takes a sample without
    replacement. Every random draw (`random.choice`, `random.randint`, the
    draws inside `random.sample`) is a free choice within its range, so each
    contract below holds whatever the draws turn out to be. */
module Random {
  import opened Entries
  import opened Pool
  import opened Grouping

  /** The dictionary `objs_by_artists`, updated in place by the selection
      loop: `groups` holds its items in key order. */
  class ArtistPool {
    var groups: seq<Group>

    ghost predicate Valid()
      reads this
    {
      PoolValid(groups)
    }

    /** The entries not yet picked. */
    ghost function Contents(): multiset<Entry>
      reads this
    {
      PoolContents(groups)
    }

    /** Lines 41-45: the pool built from `objs`, each artist a key once,
        holding all of that artist's entries in their sorted order. */
    constructor (objs: seq<Entry>)
      ensures Valid() && Contents() == multiset(objs)
      ensures forall m :: 0 <= m < |groups| ==> groups[m].entries == ByArtist(objs, groups[m].artist)
      ensures forall e :: e in objs ==> exists m :: 0 <= m < |groups| && groups[m].artist == e.albumartist
    {
      var grouped := GroupByArtist(objs);
      groups := grouped;
    }

    /** `not objs_by_artists`: the dictionary has no key left exactly when
        no entry is left to pick. */
    method IsEmpty() returns (empty: bool)
      requires Valid()
      ensures empty <==> Contents() == multiset{}
    {
      PoolEmptyIffNoArtists(groups);
      empty := |groups| == 0;
    }

    /** Lines 55-62 after the draws: pop entry `i` of the artist at key
        position `a`, and delete that artist once its list is empty. Exactly
        one entry, of that artist, leaves the pool, which stays valid. */
    method Take(a: nat, i: nat) returns (e: Entry)
      requires Valid() && a < |groups| && i < |groups[a].entries|
      modifies this
      ensures groups == AfterPop(old(groups), a, i)
      ensures e == old(groups[a].entries[i]) && e.albumartist == old(groups[a].artist)
      ensures Valid() && old(Contents()) == Contents() + multiset{e}
    {
      PoolPop(groups, a, i);
      e := groups[a].entries[i];
      groups := AfterPop(groups, a, i);
    }
  }

  /** Lines 47-62: up to `number` rounds, each drawing a remaining artist and
      one of its remaining entries; the loop stops early only once the pool
      is empty. So the result has `min(number, len(objs))` entries (none
      when `number` is not positive, since `range` is then empty), each
      taken from `objs` at most as often as it occurs there. Nothing stops
      one artist from being drawn in several rounds while others wait. */
  method EqualChance(objs: seq<Entry>, number: int) returns (picked: seq<Entry>)
    ensures |picked| == if number <= 0 then 0 else Min(number, |objs|)
    ensures multiset(picked) <= multiset(objs)
  {
    var pool := new ArtistPool(objs);
    picked := [];
    var round := 0;
    while round < number
      invariant pool.Valid()
      invariant multiset(picked) + pool.Contents() == multiset(objs)
      invariant |picked| == round && (number <= 0 ==> round == 0)
      invariant number > 0 ==> round <= number
    {
      var empty := pool.IsEmpty();
      if empty {
        assert multiset(picked) == multiset(objs);
        break;
      }
      var a :| 0 <= a < |pool.groups|;
      var i :| 0 <= i < |pool.groups[a].entries|;
      var e := pool.Take(a, i);
      picked := picked + [e];
      round := round + 1;
    }
  }

  /** Filling the vacancy at `j` with the last element and dropping the last
      slot removes exactly the element that was at `j`. */
  lemma MoveLastInto(s: seq<Entry>, j: nat)
    requires j < |s|
    ensures multiset(s[j := s[|s| - 1]][..|s| - 1]) + multiset{s[j]} == multiset(s)
  {
    var last := |s| - 1;
    assert s == s[..last] + [s[last]];
    if j < last {
      assert s[j := s[last]][..last] == s[..last][j := s[last]];
    }
  }

  /** What `random.sample` has done after drawing `picked`: `unchosen`
      (the live prefix of its `pool`) holds the other entries, `chosen` and
      `slot` record the positions in `population` that each came from, and
      no position appears twice among them. */
  ghost predicate Drawn(population: seq<Entry>, picked: seq<Entry>, unchosen: seq<Entry>, chosen: seq<nat>, slot: seq<nat>)
  {
    && |chosen| == |picked| && |slot| == |unchosen|
    && (forall m :: 0 <= m < |slot| ==> slot[m] < |population| && unchosen[m] == population[slot[m]])
    && (forall t :: 0 <= t < |chosen| ==> chosen[t] < |population| && picked[t] == population[chosen[t]])
    && (forall m, p :: 0 <= m < p < |slot| ==> slot[m] != slot[p])
    && (forall t, m :: 0 <= t < |chosen| && 0 <= m < |slot| ==> chosen[t] != slot[m])
    && (forall s, t :: 0 <= s < t < |chosen| ==> chosen[s] != chosen[t])
    && multiset(picked) + multiset(unchosen) == multiset(population)
  }

  /** One draw of `random.sample`: taking `unchosen[j]` and moving the last
      unchosen entry into its place keeps every position accounted for
      exactly once. */
  lemma DrawStep(population: seq<Entry>, picked: seq<Entry>, unchosen: seq<Entry>, chosen: seq<nat>, slot: seq<nat>, j: nat)
    requires Drawn(population, picked, unchosen, chosen, slot) && j < |unchosen|
    ensures Drawn(population, picked + [unchosen[j]], unchosen[j := unchosen[|unchosen| - 1]][..|unchosen| - 1],
                  chosen + [slot[j]], slot[j := slot[|slot| - 1]][..|slot| - 1])
  {
    var last := |unchosen| - 1;
    var unchosen', slot' := unchosen[j := unchosen[last]][..last], slot[j := slot[last]][..last];
    var picked', chosen' := picked + [unchosen[j]], chosen + [slot[j]];
    forall m | 0 <= m < |slot'| ensures slot'[m] < |population| && unchosen'[m] == population[slot'[m]] {
      var m0 := if m == j then last else m;
      assert slot'[m] == slot[m0] && unchosen'[m] == unchosen[m0];
    }
    forall t | 0 <= t < |chosen'| ensures chosen'[t] < |population| && picked'[t] == population[chosen'[t]] {
      if t < |chosen| {
        assert chosen'[t] == chosen[t] && picked'[t] == picked[t];
      }
    }
    forall m, p | 0 <= m < p < |slot'| ensures slot'[m] != slot'[p] {
      var m0, p0 := if m == j then last else m, if p == j then last else p;
      assert slot'[m] == slot[m0] && slot'[p] == slot[p0];
    }
    forall t, m | 0 <= t < |chosen'| && 0 <= m < |slot'| ensures chosen'[t] != slot'[m] {
      var m0 := if m == j then last else m;
      assert slot'[m] == slot[m0];
    }
    forall s, t | 0 <= s < t < |chosen'| ensures chosen'[s] != chosen'[t] {
      assert chosen'[s] == chosen[s];
    }
    MoveLastInto(unchosen, j);
  }

  /** One draw's list updates, `result[i] = pool[j]` followed by
      `pool[j] = pool[live - 1]`, where `result[..i]` holds the entries
      chosen so far and `pool[..live]` those not yet chosen. */
  method TakeInto(result: array<Entry>, i: nat, pool: array<Entry>, live: nat, j: nat,
                  ghost picked: seq<Entry>, ghost unchosen: seq<Entry>)
    requires result != pool && i < result.Length && j < live <= pool.Length
    requires result[..i] == picked && pool[..live] == unchosen
    modifies result, pool
    ensures result[..i + 1] == picked + [unchosen[j]]
    ensures pool[..live - 1] == unchosen[j := unchosen[|unchosen| - 1]][..|unchosen| - 1]
  {
    result[i] := pool[j];
    pool[j] := pool[live - 1];
    assert result[..i + 1] == result[..i] + [result[i]];
  }

  /** One draw of `random.sample`: `j` is drawn below the number `live` of
      entries not yet chosen, `pool[j]` becomes the next result entry, and
      the last unchosen entry moves into the vacancy. The ghost parameters
      carry the bookkeeping of `Drawn` from one draw to the next. */
  method DrawInto(population: seq<Entry>, result: array<Entry>, i: nat, pool: array<Entry>, live: nat,
                  ghost picked: seq<Entry>, ghost unchosen: seq<Entry>, ghost chosen: seq<nat>, ghost slot: seq<nat>)
    returns (ghost picked': seq<Entry>, ghost unchosen': seq<Entry>, ghost chosen': seq<nat>, ghost slot': seq<nat>)
    requires result != pool && i < result.Length && 0 < live <= pool.Length
    requires result[..i] == picked && pool[..live] == unchosen
    requires Drawn(population, picked, unchosen, chosen, slot)
    modifies result, pool
    ensures result[..i + 1] == picked' && pool[..live - 1] == unchosen'
    ensures Drawn(population, picked', unchosen', chosen', slot')
  {
    var j :| 0 <= j < live;
    DrawStep(population, picked, unchosen, chosen, slot, j);
    TakeInto(result, i, pool, live, j, picked, unchosen);
    picked', unchosen' := picked + [unchosen[j]], unchosen[j := unchosen[|unchosen| - 1]][..|unchosen| - 1];
    chosen', slot' := chosen + [slot[j]], slot[j := slot[|slot| - 1]][..|slot| - 1];
  }

  /** CPython's `random.sample(population, k)` on the branch that copies the
      population into a list `pool`: each step draws `j` below the number of
      entries not yet chosen, takes `pool[j]`, and moves the last unchosen
      entry into the vacancy. A size outside `0 .. len(population)` raises
      ValueError. `chosen` records which position of `population` each
      result entry came from: no position is chosen twice. */
  method Sample(population: seq<Entry>, k: int) returns (r: Result<seq<Entry>>, ghost chosen: seq<nat>)
    ensures r.Err? <==> k < 0 || k > |population|
    ensures r.Ok? ==> |r.value| == k == |chosen|
    ensures r.Ok? ==> forall t :: 0 <= t < k ==> chosen[t] < |population| && r.value[t] == population[chosen[t]]
    ensures r.Ok? ==> forall s, t :: 0 <= s < t < k ==> chosen[s] != chosen[t]
    ensures r.Ok? ==> multiset(r.value) <= multiset(population)
  {
    var n := |population|;
    if k < 0 || k > n {
      return Err(SampleSizeOutOfRange), [];
    }
    var result := new Entry[k];
    var pool := new Entry[n](m requires 0 <= m < n => population[m]);
    ghost var slot: seq<nat> := seq(n, m => m);
    ghost var picked: seq<Entry>, unchosen := [], population;
    chosen := [];
    assert pool[..n] == population;
    for i := 0 to k
      invariant result[..i] == picked && pool[..n - i] == unchosen
      invariant Drawn(population, picked, unchosen, chosen, slot)
    {
      picked, unchosen, chosen, slot := DrawInto(population, result, i, pool, n - i, picked, unchosen, chosen, slot);
    }
    assert result[..k] == result[..];
    r := Ok(result[..]);
  }

  /** Lines 39-66: equal-chance mode never fails; uniform mode asks
      `random.sample` for `min(len(objs), number)` entries, which fails only
      when `number` is negative. Either way the result has
      `min(number, len(objs))` entries (none for a non-positive `number`),
      all drawn from `objs`, and no entry of `objs` is picked more often than
      it occurs there. */
  method RandomItem(objs: seq<Entry>, number: int, equalChance: bool) returns (r: Result<seq<Entry>>)
    ensures r.Err? <==> !equalChance && number < 0
    ensures r.Ok? ==> |r.value| == if number <= 0 then 0 else Min(number, |objs|)
    ensures r.Ok? ==> multiset(r.value) <= multiset(objs)
    ensures r.Ok? && number >= |objs| ==> multiset(r.value) == multiset(objs)
    ensures r.Ok? && Distinct(objs) ==> Distinct(r.value)
  {
    if equalChance {
      var picked := EqualChance(objs, number);
      r := Ok(picked);
    } else {
      var number' := Min(|objs|, number);
      ghost var chosen;
      r, chosen := Sample(objs, number');
    }
    if r.Ok? && number >= |objs| {
      SubMultisetFull(r.value, objs);
    }
    if r.Ok? && Distinct(objs) {
      SubMultisetDistinct(r.value, objs);
    }
  }
}
