/** Library entries (tracks or albums) as the random selection sees them,
    the order Python uses to compare their album artists, and the list
    operations the selection relies on. */
module Entries {

  /** One library object. `id` stands for everything the selection never
      inspects (the database row, the path, the tags); `albumartist` is the
      only attribute it reads. */
  datatype Entry = Entry(id: nat, albumartist: string)

  /** The one failure the selection can raise: `random.sample` refuses a
      sample size outside `0 .. len(population)` with a ValueError. */
  datatype Error = SampleSizeOutOfRange

  datatype Result<T> = Ok(value: T) | Err(error: Error)

  function Min(a: int, b: int): (m: int)
    ensures m <= a && m <= b && (m == a || m == b)
  {
    if a < b then a else b
  }

  /** Python's `a <= b` on str: lexicographic by code point, where a proper
      prefix comes first. */
  predicate KeyLe(a: string, b: string)
    ensures a <= b ==> KeyLe(a, b)
    ensures b < a ==> !KeyLe(a, b)
  {
    |a| == 0 || (|b| > 0 && (a[0] < b[0] || (a[0] == b[0] && KeyLe(a[1..], b[1..]))))
  }

  lemma {:induction false} KeyLeReflexive(a: string)
    ensures KeyLe(a, a)
  {
    if |a| > 0 {
      KeyLeReflexive(a[1..]);
    }
  }

  lemma {:induction false} KeyLeTotal(a: string, b: string)
    ensures KeyLe(a, b) || KeyLe(b, a)
  {
    if |a| > 0 && |b| > 0 && a[0] == b[0] {
      KeyLeTotal(a[1..], b[1..]);
    }
  }

  lemma {:induction false} KeyLeAntisymmetric(a: string, b: string)
    requires KeyLe(a, b) && KeyLe(b, a)
    ensures a == b
  {
    if |a| > 0 && |b| > 0 {
      KeyLeAntisymmetric(a[1..], b[1..]);
      assert a == [a[0]] + a[1..];
      assert b == [b[0]] + b[1..];
    }
  }

  lemma {:induction false} KeyLeTransitive(a: string, b: string, c: string)
    requires KeyLe(a, b) && KeyLe(b, c)
    ensures KeyLe(a, c)
  {
    if |a| > 0 && a[0] == b[0] && b[0] == c[0] {
      KeyLeTransitive(a[1..], b[1..], c[1..]);
    }
  }

  /** The entries of `s` whose album artist is `k`, in their order in `s`. */
  function ByArtist(s: seq<Entry>, k: string): (r: seq<Entry>)
    ensures |r| <= |s|
  {
    if s == [] then []
    else (if s[0].albumartist == k then [s[0]] else []) + ByArtist(s[1..], k)
  }

  lemma {:induction false} ByArtistAppend(a: seq<Entry>, b: seq<Entry>, k: string)
    ensures ByArtist(a + b, k) == ByArtist(a, k) + ByArtist(b, k)
  {
    if a != [] {
      assert (a + b)[0] == a[0] && (a + b)[1..] == a[1..] + b;
      ByArtistAppend(a[1..], b, k);
    } else {
      assert a + b == b;
    }
  }

  lemma ByArtistAppendAll(a: seq<Entry>, b: seq<Entry>)
    ensures forall k :: ByArtist(a + b, k) == ByArtist(a, k) + ByArtist(b, k)
  {
    forall k ensures ByArtist(a + b, k) == ByArtist(a, k) + ByArtist(b, k) {
      ByArtistAppend(a, b, k);
    }
  }

  /** Filtering a run of one artist keeps all of it for that artist and
      nothing of it for any other. */
  lemma {:induction false} ByArtistOfRun(s: seq<Entry>, a: string, k: string)
    requires forall e :: e in s ==> e.albumartist == a
    ensures ByArtist(s, k) == if k == a then s else []
  {
    if s != [] {
      ByArtistOfRun(s[1..], a, k);
      assert s == [s[0]] + s[1..];
    }
  }

  /** Filtering out an artist nobody in `s` has leaves nothing. */
  lemma {:induction false} ByArtistAbsent(s: seq<Entry>, k: string)
    requires forall e :: e in s ==> e.albumartist != k
    ensures ByArtist(s, k) == []
  {
    if s != [] {
      ByArtistAbsent(s[1..], k);
    }
  }

  /** Python's `list.pop(i)`, as a value: `s` without its `i`-th element. */
  function RemoveAt<T>(s: seq<T>, i: nat): (r: seq<T>)
    requires i < |s|
    ensures |r| == |s| - 1
    ensures forall m :: 0 <= m < i ==> r[m] == s[m]
    ensures forall m :: i <= m < |r| ==> r[m] == s[m + 1]
  {
    s[..i] + s[i + 1..]
  }

  lemma RemoveAtMultiset(s: seq<Entry>, i: nat)
    requires i < |s|
    ensures multiset(RemoveAt(s, i)) == multiset(s) - multiset{s[i]}
    ensures s[i] in multiset(s)
  {
    assert s == s[..i] + [s[i]] + s[i + 1..];
  }

  /** A sequence drawn, as a sub-multiset, from `b` and at least as long as
      `b` holds exactly the entries of `b`. */
  lemma SubMultisetFull(a: seq<Entry>, b: seq<Entry>)
    requires multiset(a) <= multiset(b) && |a| >= |b|
    ensures multiset(a) == multiset(b)
  {
    var rest := multiset(b) - multiset(a);
    assert multiset(b) == multiset(a) + rest;
    assert |rest| == 0;
  }

  /** No entry occurs twice in `s`. */
  ghost predicate Distinct(s: seq<Entry>)
  {
    forall m, n :: 0 <= m < n < |s| ==> s[m] != s[n]
  }

  lemma {:induction false} DistinctCountsAtMostOne(s: seq<Entry>, e: Entry)
    requires Distinct(s)
    ensures multiset(s)[e] <= 1
  {
    if s != [] {
      assert s == [s[0]] + s[1..];
      DistinctCountsAtMostOne(s[1..], e);
      if s[0] == e {
        assert e !in s[1..];
      }
    }
  }

  /** A sequence drawn, as a sub-multiset, from a duplicate-free sequence is
      itself duplicate-free. */
  lemma SubMultisetDistinct(a: seq<Entry>, b: seq<Entry>)
    requires multiset(a) <= multiset(b) && Distinct(b)
    ensures Distinct(a)
  {
    forall m, n | 0 <= m < n < |a| ensures a[m] != a[n] {
      if a[m] == a[n] {
        assert a == a[..m] + [a[m]] + a[m + 1..n] + [a[n]] + a[n + 1..];
        assert multiset(a)[a[m]] >= 2;
        DistinctCountsAtMostOne(b, a[m]);
        assert false;
      }
    }
  }
}
