/** The first half of equal-chance mode: sort the entries by album artist
    and group consecutive runs of one artist into a dictionary from artist
    to that artist's list of entries (the artist pool). */
module Grouping {
  import opened Entries
  import opened Pool

  /** Entries are in non-decreasing album-artist order. */
  ghost predicate Sorted(s: seq<Entry>)
  {
    forall m, n :: 0 <= m < n < |s| ==> KeyLe(s[m].albumartist, s[n].albumartist)
  }

  /** Appending an entry whose album artist is at least the last one keeps
      a sequence sorted. */
  lemma SortedSnoc(s: seq<Entry>, y: Entry)
    requires Sorted(s) && (|s| == 0 || KeyLe(s[|s| - 1].albumartist, y.albumartist))
    ensures Sorted(s + [y])
  {
    var r := s + [y];
    forall m, n | 0 <= m < n < |r| ensures KeyLe(r[m].albumartist, r[n].albumartist) {
      if n < |s| {
        assert r[m] == s[m] && r[n] == s[n];
      } else if m < |s| - 1 {
        KeyLeTransitive(s[m].albumartist, s[|s| - 1].albumartist, y.albumartist);
      }
    }
  }

  /** `t` with `x` placed after every entry whose album artist is at most
      x's: one step of a stable sort. */
  function Insert(t: seq<Entry>, x: Entry): (r: seq<Entry>)
    requires Sorted(t)
    ensures |r| == |t| + 1 && Sorted(r)
    ensures multiset(r) == multiset(t) + multiset{x}
    ensures r[|r| - 1] == x || (|t| > 0 && r[|r| - 1] == t[|t| - 1])
    decreases |t|
  {
    if |t| == 0 || KeyLe(t[|t| - 1].albumartist, x.albumartist) then
      SortedSnoc(t, x);
      t + [x]
    else
      var y := t[|t| - 1];
      var front := t[..|t| - 1];
      assert t == front + [y];
      var r' := Insert(front, x);
      KeyLeTotal(x.albumartist, y.albumartist);
      assert |front| > 0 ==> KeyLe(front[|front| - 1].albumartist, y.albumartist);
      SortedSnoc(r', y);
      r' + [y]
  }

  /** Insertion is stable: per artist, `x` lands behind the entries of `t`. */
  lemma {:induction false} InsertByArtist(t: seq<Entry>, x: Entry, k: string)
    requires Sorted(t)
    ensures ByArtist(Insert(t, x), k) == ByArtist(t, k) + ByArtist([x], k)
    decreases |t|
  {
    if |t| == 0 || KeyLe(t[|t| - 1].albumartist, x.albumartist) {
      ByArtistAppend(t, [x], k);
    } else {
      var y := t[|t| - 1];
      var front := t[..|t| - 1];
      assert t == front + [y];
      var r' := Insert(front, x);
      assert Insert(t, x) == r' + [y];
      InsertByArtist(front, x, k);
      KeyLeReflexive(x.albumartist);
      ByArtistBehind(front, r', x, y, k);
    }
  }

  /** If `r` filters like `front` followed by `x`, then `r` followed by `y`
      filters like `front` followed by `y` and then `x`, when `x` and `y`
      differ in artist. */
  lemma ByArtistBehind(front: seq<Entry>, r: seq<Entry>, x: Entry, y: Entry, k: string)
    requires ByArtist(r, k) == ByArtist(front, k) + ByArtist([x], k)
    requires x.albumartist != y.albumartist
    ensures ByArtist(r + [y], k) == ByArtist(front + [y], k) + ByArtist([x], k)
  {
    ByArtistAppend(r, [y], k);
    ByArtistAppend(front, [y], k);
    ByArtistSwap(x, y, k);
  }

  /** Two entries of different artists never both survive one filter, so
      their order does not matter to it. */
  lemma ByArtistSwap(x: Entry, y: Entry, k: string)
    requires x.albumartist != y.albumartist
    ensures ByArtist([x], k) + ByArtist([y], k) == ByArtist([y], k) + ByArtist([x], k)
  {
    assert ByArtist([x], k) == if x.albumartist == k then [x] else [];
    assert ByArtist([y], k) == if y.albumartist == k then [y] else [];
  }

  /** `objs.sort(key=attrgetter('albumartist'))`: Python's sort is stable, so
      the result is sorted by album artist, is a permutation of the input,
      and keeps each artist's entries in their original relative order. */
  function SortByArtist(s: seq<Entry>): (r: seq<Entry>)
    ensures Sorted(r)
    ensures multiset(r) == multiset(s)
    ensures forall k :: ByArtist(r, k) == ByArtist(s, k)
  {
    if s == [] then []
    else
      var front := s[..|s| - 1];
      var x := s[|s| - 1];
      assert s == front + [x];
      var sortedFront := SortByArtist(front);
      ByArtistAppendAll(front, [x]);
      forall k ensures ByArtist(Insert(sortedFront, x), k) == ByArtist(s, k) {
        InsertByArtist(sortedFront, x, k);
      }
      Insert(sortedFront, x)
  }

  /** What the grouping loop has built after consuming `sorted[..i]`: a valid
      pool holding exactly those entries, each artist's list being all of its
      entries so far, and no artist above the last one consumed. */
  ghost predicate GroupedUpTo(sorted: seq<Entry>, i: int, pool: seq<Group>)
  {
    && 0 <= i <= |sorted|
    && PoolValid(pool)
    && PoolContents(pool) == multiset(sorted[..i])
    && (forall m :: 0 <= m < |pool| ==> pool[m].entries == ByArtist(sorted[..i], pool[m].artist))
    && (i == 0 ==> pool == [])
    && (i > 0 ==> forall m :: 0 <= m < |pool| ==> KeyLe(pool[m].artist, sorted[i - 1].albumartist))
  }

  /** `sorted[i..j]` is a run of one artist who is not a key yet, has no
      entry among those consumed, and is at least every key. */
  ghost predicate NewRun(sorted: seq<Entry>, i: int, j: int, pool: seq<Group>)
  {
    && 0 <= i < j <= |sorted|
    && (forall m :: i <= m < j ==> sorted[m].albumartist == sorted[i].albumartist)
    && (forall m :: 0 <= m < |pool| ==> pool[m].artist != sorted[i].albumartist)
    && (forall m :: 0 <= m < |pool| ==> KeyLe(pool[m].artist, sorted[i].albumartist))
    && (forall e :: e in sorted[..i] ==> e.albumartist != sorted[i].albumartist)
  }

  /** An artist strictly above the last one consumed, in sorted input, is
      neither a key nor the artist of any consumed entry, and is at least
      every key. */
  lemma RunArtistIsNew(consumed: seq<Entry>, pool: seq<Group>, previous: string, artist: string)
    requires forall m :: 0 <= m < |pool| ==> KeyLe(pool[m].artist, previous)
    requires forall m :: 0 <= m < |consumed| ==> KeyLe(consumed[m].albumartist, previous)
    requires KeyLe(previous, artist) && previous != artist
    ensures forall m :: 0 <= m < |pool| ==> pool[m].artist != artist
    ensures forall m :: 0 <= m < |pool| ==> KeyLe(pool[m].artist, artist)
    ensures forall e :: e in consumed ==> e.albumartist != artist
  {
    forall m | 0 <= m < |pool| ensures pool[m].artist != artist && KeyLe(pool[m].artist, artist) {
      if pool[m].artist == artist {
        KeyLeAntisymmetric(artist, previous);
      }
      KeyLeTransitive(pool[m].artist, previous, artist);
    }
    forall e | e in consumed ensures e.albumartist != artist {
      var m :| 0 <= m < |consumed| && consumed[m] == e;
      if e.albumartist == artist {
        KeyLeAntisymmetric(artist, previous);
      }
    }
  }

  /** What sortedness says about the entry at `i` and those before it. */
  lemma SortedBefore(sorted: seq<Entry>, i: int)
    requires Sorted(sorted) && 0 < i < |sorted|
    ensures KeyLe(sorted[i - 1].albumartist, sorted[i].albumartist)
    ensures forall m :: 0 <= m < i ==> KeyLe(sorted[m].albumartist, sorted[i - 1].albumartist)
  {
    forall m | 0 <= m < i ensures KeyLe(sorted[m].albumartist, sorted[i - 1].albumartist) {
      if m < i - 1 {
        assert KeyLe(sorted[m].albumartist, sorted[i - 1].albumartist);
      } else {
        KeyLeReflexive(sorted[m].albumartist);
      }
    }
  }

  /** Because the input is sorted, the run that starts where the previous
      one ended belongs to a new artist. */
  lemma RunIsNew(sorted: seq<Entry>, i: int, j: int, pool: seq<Group>)
    requires GroupedUpTo(sorted, i, pool) && i < j <= |sorted|
    requires forall m :: i <= m < j ==> sorted[m].albumartist == sorted[i].albumartist
    requires i > 0 ==> sorted[i - 1].albumartist != sorted[i].albumartist
    requires i > 0 ==> KeyLe(sorted[i - 1].albumartist, sorted[i].albumartist)
    requires i > 0 ==> forall m :: 0 <= m < i ==> KeyLe(sorted[m].albumartist, sorted[i - 1].albumartist)
    ensures NewRun(sorted, i, j, pool)
  {
    if i > 0 {
      RunArtistIsNew(sorted[..i], pool, sorted[i - 1].albumartist, sorted[i].albumartist);
    }
  }

  /** Appending a run of an artist absent from `prefix`: each list, the run
      stored under its artist included, is still the filter of the longer
      sequence. */
  lemma AppendRunByArtist(prefix: seq<Entry>, run: seq<Entry>, artist: string, pool: seq<Group>)
    requires forall m :: 0 <= m < |pool| ==> pool[m].entries == ByArtist(prefix, pool[m].artist)
    requires forall m :: 0 <= m < |pool| ==> pool[m].artist != artist
    requires forall e :: e in run ==> e.albumartist == artist
    requires forall e :: e in prefix ==> e.albumartist != artist
    ensures forall m :: 0 <= m < |pool| + 1 ==>
      (pool + [Group(artist, run)])[m].entries == ByArtist(prefix + run, (pool + [Group(artist, run)])[m].artist)
  {
    var pool' := pool + [Group(artist, run)];
    forall m | 0 <= m < |pool'| ensures pool'[m].entries == ByArtist(prefix + run, pool'[m].artist) {
      var k := pool'[m].artist;
      ByArtistAppend(prefix, run, k);
      ByArtistOfRun(run, artist, k);
      if m == |pool| {
        ByArtistAbsent(prefix, artist);
      }
    }
  }

  /** Each list, after storing the run `sorted[i..j]`, is still all of its
      artist's entries in `sorted[..j]`. */
  lemma StoreRunByArtist(sorted: seq<Entry>, i: int, j: int, pool: seq<Group>)
    requires NewRun(sorted, i, j, pool)
    requires forall m :: 0 <= m < |pool| ==> pool[m].entries == ByArtist(sorted[..i], pool[m].artist)
    ensures forall m :: 0 <= m < |pool| + 1 ==>
      (pool + [Group(sorted[i].albumartist, sorted[i..j])])[m].entries
        == ByArtist(sorted[..j], (pool + [Group(sorted[i].albumartist, sorted[i..j])])[m].artist)
  {
    assert sorted[..j] == sorted[..i] + sorted[i..j];
    assert forall e :: e in sorted[i..j] ==> e.albumartist == sorted[i].albumartist;
    AppendRunByArtist(sorted[..i], sorted[i..j], sorted[i].albumartist, pool);
  }

  /** Storing the run adds exactly its entries to the pool. */
  lemma StoreRunContents(sorted: seq<Entry>, i: int, j: int, pool: seq<Group>)
    requires NewRun(sorted, i, j, pool)
    requires PoolContents(pool) == multiset(sorted[..i])
    ensures PoolContents(pool + [Group(sorted[i].albumartist, sorted[i..j])]) == multiset(sorted[..j])
  {
    var g := Group(sorted[i].albumartist, sorted[i..j]);
    assert sorted[..j] == sorted[..i] + sorted[i..j];
    PoolContentsAppend(pool, [g]);
    assert [g][1..] == [];
  }

  /** Storing a run of a new artist keeps the pool valid. */
  lemma StoreRunValid(sorted: seq<Entry>, i: int, j: int, pool: seq<Group>)
    requires NewRun(sorted, i, j, pool) && PoolValid(pool)
    ensures PoolValid(pool + [Group(sorted[i].albumartist, sorted[i..j])])
  {
    var pool' := pool + [Group(sorted[i].albumartist, sorted[i..j])];
    forall m, n | 0 <= m < n < |pool'| ensures pool'[m].artist != pool'[n].artist {
      if n == |pool| {
        assert pool'[m] == pool[m];
      }
    }
  }

  /** After storing the run no key is above the run's artist. */
  lemma StoreRunBound(sorted: seq<Entry>, i: int, j: int, pool: seq<Group>)
    requires NewRun(sorted, i, j, pool)
    ensures forall m :: 0 <= m < |pool| + 1 ==>
      KeyLe((pool + [Group(sorted[i].albumartist, sorted[i..j])])[m].artist, sorted[j - 1].albumartist)
  {
    KeyLeReflexive(sorted[i].albumartist);
  }

  /** Storing the run `sorted[i..j]` of a new artist moves the grouping from
      `i` to `j`. */
  lemma StoreRun(sorted: seq<Entry>, i: int, j: int, pool: seq<Group>)
    requires GroupedUpTo(sorted, i, pool) && NewRun(sorted, i, j, pool)
    ensures GroupedUpTo(sorted, j, pool + [Group(sorted[i].albumartist, sorted[i..j])])
  {
    StoreRunValid(sorted, i, j, pool);
    StoreRunContents(sorted, i, j, pool);
    StoreRunByArtist(sorted, i, j, pool);
    StoreRunBound(sorted, i, j, pool);
  }

  /** One round of the grouping loop: the run `sorted[i..j]` that `groupby`
      yields next is stored under its artist, and the grouping moves on to
      `j`. */
  lemma GroupStep(sorted: seq<Entry>, i: int, j: int, pool: seq<Group>)
    requires Sorted(sorted) && GroupedUpTo(sorted, i, pool) && i < j <= |sorted|
    requires 0 < i < |sorted| ==> sorted[i - 1].albumartist != sorted[i].albumartist
    requires forall m :: i <= m < j ==> sorted[m].albumartist == sorted[i].albumartist
    requires j < |sorted| ==> sorted[j].albumartist != sorted[i].albumartist
    ensures GroupedUpTo(sorted, j, pool + [Group(sorted[i].albumartist, sorted[i..j])])
    ensures 0 < j < |sorted| ==> sorted[j - 1].albumartist != sorted[j].albumartist
  {
    if i > 0 {
      SortedBefore(sorted, i);
    }
    RunIsNew(sorted, i, j, pool);
    StoreRun(sorted, i, j, pool);
  }

  /** Once the whole sorted sequence is consumed, the pool is the grouping
      of the original entries. */
  lemma GroupedAll(objs: seq<Entry>, sorted: seq<Entry>, pool: seq<Group>)
    requires multiset(sorted) == multiset(objs)
    requires forall k :: ByArtist(sorted, k) == ByArtist(objs, k)
    requires GroupedUpTo(sorted, |sorted|, pool)
    ensures PoolValid(pool)
    ensures PoolContents(pool) == multiset(objs)
    ensures forall m :: 0 <= m < |pool| ==> pool[m].entries == ByArtist(objs, pool[m].artist)
    ensures forall e :: e in objs ==> exists m :: 0 <= m < |pool| && pool[m].artist == e.albumartist
  {
    assert sorted[..|sorted|] == sorted;
    forall e | e in objs ensures exists m :: 0 <= m < |pool| && pool[m].artist == e.albumartist {
      PoolContentsHasKey(pool, e);
    }
  }

  /** What `itertools.groupby` does to find the current group: the end of
      the run of entries that share `sorted[i]`'s album artist. */
  method RunEnd(sorted: seq<Entry>, i: int) returns (j: int)
    requires 0 <= i < |sorted|
    ensures i < j <= |sorted|
    ensures forall m :: i <= m < j ==> sorted[m].albumartist == sorted[i].albumartist
    ensures j < |sorted| ==> sorted[j].albumartist != sorted[i].albumartist
  {
    j := i + 1;
    while j < |sorted| && sorted[j].albumartist == sorted[i].albumartist
      invariant i < j <= |sorted|
      invariant forall m :: i <= m < j ==> sorted[m].albumartist == sorted[i].albumartist
    {
      j := j + 1;
    }
  }

  /** Lines 41-45: sort by album artist, then store each run of one artist
      (what `groupby` yields) under that artist. Because the input is sorted,
      every run's artist is a new key, so the assignment
      `objs_by_artists[artist] = list(v)` always adds an item at the end,
      and every artist's list holds all of that artist's entries. */
  method GroupByArtist(objs: seq<Entry>) returns (pool: seq<Group>)
    ensures PoolValid(pool)
    ensures PoolContents(pool) == multiset(objs)
    ensures forall m :: 0 <= m < |pool| ==> pool[m].entries == ByArtist(objs, pool[m].artist)
    ensures forall e :: e in objs ==> exists m :: 0 <= m < |pool| && pool[m].artist == e.albumartist
  {
    var sorted := SortByArtist(objs);
    pool := [];
    var i := 0;
    while i < |sorted|
      invariant GroupedUpTo(sorted, i, pool)
      invariant 0 < i < |sorted| ==> sorted[i - 1].albumartist != sorted[i].albumartist
    {
      var artist := sorted[i].albumartist;
      var j := RunEnd(sorted, i);
      GroupStep(sorted, i, j, pool);
      pool := pool + [Group(artist, sorted[i..j])];
      i := j;
    }
    GroupedAll(objs, sorted, pool);
  }
}
