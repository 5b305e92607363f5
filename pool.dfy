/** The artist pool of equal-chance mode, `objs_by_artists`: a dictionary
    from album artist to the list of that artist's entries not yet picked.
    The pool is modelled as the sequence of its (key, list) items, kept in
    insertion order. That order is a modelling choice: the artist drawn in
    each round ranges over every key, so no outcome depends on it. */
module Pool {
  import opened Entries

  /** One item of the dictionary: an artist and its list. */
  datatype Group = Group(artist: string, entries: seq<Entry>)

  /** The pool invariant: every artist is a key only once, no list is
      empty, and every entry sits in the list of its own album artist. */
  ghost predicate PoolValid(pool: seq<Group>)
  {
    && (forall m, n :: 0 <= m < n < |pool| ==> pool[m].artist != pool[n].artist)
    && (forall m :: 0 <= m < |pool| ==> |pool[m].entries| > 0)
    && (forall m, t :: 0 <= m < |pool| && 0 <= t < |pool[m].entries| ==> pool[m].entries[t].albumartist == pool[m].artist)
  }

  /** Every entry still in the pool, counted with multiplicity. */
  ghost function PoolContents(pool: seq<Group>): multiset<Entry>
  {
    if pool == [] then multiset{} else multiset(pool[0].entries) + PoolContents(pool[1..])
  }

  lemma {:induction false} PoolContentsAppend(s: seq<Group>, t: seq<Group>)
    ensures PoolContents(s + t) == PoolContents(s) + PoolContents(t)
  {
    if s == [] {
      assert s + t == t;
    } else {
      assert (s + t)[0] == s[0] && (s + t)[1..] == s[1..] + t;
      PoolContentsAppend(s[1..], t);
    }
  }

  /** The pool seen as three parts around the item at position `a`. */
  lemma PoolContentsSplit(pool: seq<Group>, a: nat)
    requires a < |pool|
    ensures PoolContents(pool) == PoolContents(pool[..a]) + multiset(pool[a].entries) + PoolContents(pool[a + 1..])
  {
    var right := pool[a..];
    assert pool == pool[..a] + right;
    PoolContentsAppend(pool[..a], right);
    assert right[0] == pool[a] && right[1..] == pool[a + 1..];
  }

  /** The pool holds no entry exactly when it has no key: no list in it is
      empty. */
  lemma PoolEmptyIffNoArtists(pool: seq<Group>)
    requires PoolValid(pool)
    ensures PoolContents(pool) == multiset{} <==> pool == []
  {
    if pool != [] {
      assert pool[0].entries[0] in multiset(pool[0].entries);
    }
  }

  /** Every entry in the pool sits in the list of a key equal to its own
      album artist. */
  lemma {:induction false} PoolContentsHasKey(pool: seq<Group>, e: Entry)
    requires PoolValid(pool) && e in PoolContents(pool)
    ensures exists m :: 0 <= m < |pool| && pool[m].artist == e.albumartist
  {
    if e in multiset(pool[0].entries) {
      var t :| 0 <= t < |pool[0].entries| && pool[0].entries[t] == e;
      assert pool[0].artist == e.albumartist;
    } else {
      PoolContentsHasKey(pool[1..], e);
      var m :| 0 <= m < |pool[1..]| && pool[1..][m].artist == e.albumartist;
      assert pool[m + 1].artist == e.albumartist;
    }
  }

  /** The pool after one round's removal (lines 56-62): entry `i` of the
      item at position `a` is popped, and the item is deleted when that was
      its last entry. */
  function AfterPop(pool: seq<Group>, a: nat, i: nat): (after: seq<Group>)
    requires a < |pool| && i < |pool[a].entries|
    ensures |pool[a].entries| == 1 ==> |after| == |pool| - 1
    ensures |pool[a].entries| > 1 ==>
      |after| == |pool| && after[a].artist == pool[a].artist && |after[a].entries| == |pool[a].entries| - 1
  {
    if |pool[a].entries| == 1 then RemoveAt(pool, a)
    else pool[a := Group(pool[a].artist, RemoveAt(pool[a].entries, i))]
  }

  /** Deleting one item keeps the pool valid: every remaining artist is
      still a key only once. */
  lemma RemoveAtValid(pool: seq<Group>, a: nat)
    requires PoolValid(pool) && a < |pool|
    ensures PoolValid(RemoveAt(pool, a))
  {
    var after := RemoveAt(pool, a);
    forall m, n | 0 <= m < n < |after| ensures after[m].artist != after[n].artist {
      var m', n' := if m < a then m else m + 1, if n < a then n else n + 1;
      assert after[m] == pool[m'] && after[n] == pool[n'];
    }
  }

  /** Deleting one item takes exactly its list out of the pool. */
  lemma RemoveAtContents(pool: seq<Group>, a: nat)
    requires a < |pool|
    ensures PoolContents(pool) == PoolContents(RemoveAt(pool, a)) + multiset(pool[a].entries)
  {
    PoolContentsSplit(pool, a);
    PoolContentsAppend(pool[..a], pool[a + 1..]);
  }

  /** `del objs_by_artists[artist]` after popping the artist's last entry:
      the pool stays valid and loses exactly that entry. */
  lemma PoolDropArtist(pool: seq<Group>, a: nat, i: nat)
    requires PoolValid(pool) && a < |pool| && i < |pool[a].entries| == 1
    ensures PoolValid(AfterPop(pool, a, i))
    ensures PoolContents(pool) == PoolContents(AfterPop(pool, a, i)) + multiset{pool[a].entries[i]}
  {
    assert AfterPop(pool, a, i) == RemoveAt(pool, a);
    RemoveAtValid(pool, a);
    RemoveAtContents(pool, a);
    assert pool[a].entries == [pool[a].entries[i]];
  }

  /** Replacing a list by a non-empty part of it keeps the pool valid. */
  lemma PoolValidShrink(pool: seq<Group>, a: nat, list: seq<Entry>)
    requires PoolValid(pool) && a < |pool| && |list| > 0
    requires forall t :: 0 <= t < |list| ==> list[t] in pool[a].entries
    ensures PoolValid(pool[a := Group(pool[a].artist, list)])
  {
    var after := pool[a := Group(pool[a].artist, list)];
    forall m, t | 0 <= m < |after| && 0 <= t < |after[m].entries|
      ensures after[m].entries[t].albumartist == after[m].artist
    {
      if m == a {
        var u :| 0 <= u < |pool[a].entries| && pool[a].entries[u] == list[t];
      }
    }
  }

  /** `objs_from_artist.pop(i)` when the artist has other entries left: the
      pool stays valid and loses exactly the popped entry. */
  lemma PoolShrink(pool: seq<Group>, a: nat, i: nat)
    requires PoolValid(pool) && a < |pool| && i < |pool[a].entries| && |pool[a].entries| > 1
    ensures PoolValid(pool[a := Group(pool[a].artist, RemoveAt(pool[a].entries, i))])
    ensures PoolContents(pool)
      == PoolContents(pool[a := Group(pool[a].artist, RemoveAt(pool[a].entries, i))]) + multiset{pool[a].entries[i]}
  {
    var list := RemoveAt(pool[a].entries, i);
    var after := pool[a := Group(pool[a].artist, list)];
    assert forall t :: 0 <= t < |list| ==> list[t] in pool[a].entries by {
      forall t | 0 <= t < |list| ensures list[t] in pool[a].entries {
        if t < i {
          assert list[t] == pool[a].entries[t];
        } else {
          assert list[t] == pool[a].entries[t + 1];
        }
      }
    }
    PoolValidShrink(pool, a, list);
    PoolContentsSplit(pool, a);
    PoolContentsSplit(after, a);
    assert after[..a] == pool[..a] && after[a + 1..] == pool[a + 1..];
    RemoveAtMultiset(pool[a].entries, i);
  }

  /** One round's removal keeps the pool valid and takes exactly the popped
      entry out of it. */
  lemma PoolPop(pool: seq<Group>, a: nat, i: nat)
    requires PoolValid(pool) && a < |pool| && i < |pool[a].entries|
    ensures PoolValid(AfterPop(pool, a, i))
    ensures PoolContents(pool) == PoolContents(AfterPop(pool, a, i)) + multiset{pool[a].entries[i]}
  {
    if |pool[a].entries| == 1 {
      PoolDropArtist(pool, a, i);
    } else {
      PoolShrink(pool, a, i);
    }
  }

  /** One round's removal touches only the chosen item: with it set aside,
      the other items are unchanged and in the same order. The chosen item
      keeps its artist and loses exactly the popped entry, or disappears
      when that was its last one. */
  lemma PoolPopOthersUnchanged(pool: seq<Group>, a: nat, i: nat)
    requires a < |pool| && i < |pool[a].entries|
    ensures |pool[a].entries| == 1 ==> AfterPop(pool, a, i) == RemoveAt(pool, a)
    ensures |pool[a].entries| > 1 ==>
      && |AfterPop(pool, a, i)| == |pool|
      && RemoveAt(AfterPop(pool, a, i), a) == RemoveAt(pool, a)
      && AfterPop(pool, a, i)[a].artist == pool[a].artist
      && multiset(AfterPop(pool, a, i)[a].entries) + multiset{pool[a].entries[i]} == multiset(pool[a].entries)
  {
    if |pool[a].entries| > 1 {
      var after := AfterPop(pool, a, i);
      RemoveAtMultiset(pool[a].entries, i);
      assert after[..a] == pool[..a] && after[a + 1..] == pool[a + 1..];
    }
  }
}
