# Random selection of the beets `random` plugin, modelled in Dafny

The `random` command of beets picks `--number` objects (tracks, or albums with
`--album`) at random from the library objects that match a query.

- **Uniform mode (default).** It hands the objects to `random.sample`, asking
  for `min(len(objs), number)` of them.
- **Equal-chance mode (`--equal-chance`).** It sorts the objects by album
  artist and groups them into a dictionary from artist to that artist's list.
  Then, for up to `number` rounds, it draws an artist, draws one of that
  artist's objects, pops it into the result, and deletes the artist once the
  list is used up. It stops early when the dictionary is empty.

The model covers this selection core, `random_item` in `beetsplug/random.py`
lines 39-66. It has four modules:

- `Entries` (entries.dfy) holds the library object as the selection sees it:
  an identity plus its album artist. It also holds Python's `<=` on strings
  (the sort order), filtering by artist, `list.pop(i)` as a value, and the
  result and error types.
- `Grouping` (grouping.dfy) covers lines 41-45. The stable sort is a function.
  The `groupby` loop is a method over the sorted entries that builds the
  dictionary. It is proved to hold every artist once, with no empty list, and
  each list equal to all of that artist's objects in their original order.
- `Pool` (pool.dfy) holds the dictionary, written as the sequence of its
  (artist, list) items in insertion order. It also holds its invariant, its
  contents as a multiset, and what one pop-and-maybe-delete does to both.
- `Random` (random.dfy) contains:
  - the dictionary as a class that the selection loop updates in place;
  - the equal-chance loop;
  - `random.sample` with its pool array;
  - `RandomItem`, which chooses between the two modes.

Every random draw is a free choice within the range the code draws from:
`random.choice` over the keys, `random.randint(0, len - 1)`, and the index
draws inside `random.sample`. So every contract holds whatever the draws turn
out to be. The model says nothing about probabilities.

Equal-chance mode draws the artist afresh in every round. So one artist can
be picked several times while other artists have not been picked yet. The
model follows the code here. No contract claims that every artist contributes
once before any artist repeats, because the code does not ensure it.

## Model

| member | source | states |
|---|---|---|
| `Entries.Min` | beetsplug/random.py:65 | `min(len(objs), opts.number)` is at most both arguments and equal to one of them |
| `Entries.KeyLe` | beetsplug/random.py:41-42 | Python's `<=` on the album-artist sort key: lexicographic by code point, where a prefix comes before every longer string that extends it |
| `Entries.KeyLeReflexive` | beetsplug/random.py:41-42 | Python's `<=` on album-artist strings is reflexive |
| `Entries.KeyLeTotal` | beetsplug/random.py:41-42 | any two album artists are comparable, so sorting by them is well defined |
| `Entries.KeyLeAntisymmetric` | beetsplug/random.py:41-42 | two artists each `<=` the other are the same artist |
| `Entries.KeyLeTransitive` | beetsplug/random.py:41-42 | the sort key's order is transitive |
| `Entries.RemoveAt` | beetsplug/random.py:58 | `list.pop(i)` leaves one element fewer: the ones before `i` stay in place and the ones after move down by one |
| `Entries.RemoveAtMultiset` | beetsplug/random.py:58 | popping index `i` removes exactly one occurrence of the popped object from the list's contents |
| `Entries.SubMultisetDistinct` | beetsplug/random.py:47-66 | when `objs` has no duplicates, a result drawn from it without replacement has none either |
| `Entries.SubMultisetFull` | beetsplug/random.py:47-66 | a result drawn without replacement that is as long as `objs` holds exactly the objects of `objs` |
| `Grouping.Insert` | beetsplug/random.py:42 | one step of the stable sort: the result is sorted, one longer, and a permutation of the list plus the new object |
| `Grouping.InsertByArtist` | beetsplug/random.py:42 | the inserted object lands behind every object of its own artist (stability), per artist |
| `Grouping.SortByArtist` | beetsplug/random.py:41-42 | `objs.sort(key=albumartist)` gives a sorted permutation that keeps each artist's objects in their original relative order |
| `Grouping.RunEnd` | beetsplug/random.py:44 | `groupby` finds the maximal run of one album artist starting at the current position |
| `Grouping.RunIsNew` | beetsplug/random.py:42-45 | in sorted input, the run after the previous one belongs to an artist who is not a key yet and has no object among those already grouped |
| `Grouping.StoreRun` | beetsplug/random.py:44-45 | `objs_by_artists[artist] = list(v)` for a new artist keeps the grouping invariant, now over one more run |
| `Grouping.GroupStep` | beetsplug/random.py:44-45 | one round of the `groupby` loop stores the next run under its artist and keeps the grouping invariant |
| `Grouping.GroupedAll` | beetsplug/random.py:41-45 | after the last run, the dictionary holds exactly `objs`, each list is all of its artist's objects in their original order, and every object's artist is a key |
| `Grouping.GroupByArtist` | beetsplug/random.py:41-45 | the dictionary built by sort and `groupby`: each artist a key once, no empty list, every object under its own artist, the lists together a permutation of `objs`, each list its artist's objects in their original order |
| `Pool.PoolEmptyIffNoArtists` | beetsplug/random.py:50 | under the invariant, `not objs_by_artists` holds exactly when no object is left to pick |
| `Pool.PoolContentsHasKey` | beetsplug/random.py:43-45 | every object in the dictionary sits under a key equal to its own album artist |
| `Pool.RemoveAtValid` | beetsplug/random.py:62 | `del objs_by_artists[artist]` keeps every remaining artist a key only once with a non-empty list |
| `Pool.RemoveAtContents` | beetsplug/random.py:62 | deleting an artist removes exactly its list from the dictionary's contents |
| `Pool.AfterPop` | beetsplug/random.py:56-62 | the dictionary after one round: the chosen artist's item disappears when the popped object was its last, and otherwise stays in place under the same key with one object fewer |
| `Pool.PoolDropArtist` | beetsplug/random.py:58-62 | popping an artist's last object and deleting the artist keeps the invariant and removes exactly that object |
| `Pool.PoolShrink` | beetsplug/random.py:56-58 | popping one of several objects of an artist keeps the invariant and removes exactly that object |
| `Pool.PoolPop` | beetsplug/random.py:56-62 | one round's pop, with the deletion when the list empties, keeps the invariant (no empty list, keys distinct, objects under their own artist) and conserves contents: before = after plus the popped object |
| `Pool.PoolPopOthersUnchanged` | beetsplug/random.py:56-62 | one round touches only the chosen artist: every other item is unchanged and in order, and the chosen artist keeps its key and loses exactly the popped object or disappears |
| `Random.ArtistPool.constructor` | beetsplug/random.py:41-45 | the dictionary object starts out valid, holding exactly `objs` grouped by artist |
| `Random.ArtistPool.IsEmpty` | beetsplug/random.py:50 | `not objs_by_artists` is true exactly when no object is left |
| `Random.ArtistPool.Take` | beetsplug/random.py:55-62 | pops object `i` of the artist at key position `a`, deleting the artist when its list empties; the returned object is that artist's, the dictionary stays valid, and exactly that object leaves it |
| `Random.EqualChance` | beetsplug/random.py:47-62 | the loop returns `min(number, len(objs))` objects (none for `number <= 0`), each taken from `objs` no more often than it occurs there |
| `Random.DrawStep` | beetsplug/random.py:66 | one draw of `random.sample` keeps every position of the population accounted for exactly once, either chosen or still in the pool |
| `Random.TakeInto` | beetsplug/random.py:66 | inside `random.sample`, `result[i] = pool[j]; pool[j] = pool[live - 1]` appends the drawn entry to the result and fills the vacancy with the last unchosen entry |
| `Random.DrawInto` | beetsplug/random.py:66 | one draw of `random.sample` on its arrays keeps the position bookkeeping: one more entry chosen, one fewer left, no position used twice |
| `Random.Sample` | beetsplug/random.py:66 | `random.sample(objs, k)` raises ValueError exactly for `k` outside `0 .. len(objs)`; otherwise it returns `k` objects taken from `k` distinct positions of `objs` |
| `Random.RandomItem` | beetsplug/random.py:39-66 | only uniform mode with negative `number` fails. Otherwise the result has `min(number, len(objs))` objects (none for `number <= 0`), drawn from `objs` without replacement. It is all of `objs` when `number >= len(objs)`, and duplicate-free when `objs` is |

## Left out

- Lines 26-37 are left out: reading the query from the arguments, choosing the output template, and fetching items or albums from the library. The library objects arrive as the parameter `objs`.
- Lines 68-69 are left out: printing the chosen objects with `print_obj` is output.
- Lines 71-87 are left out: the command-line options and the plugin class are command-line wiring.
- Probabilities are not modelled. Every draw is an arbitrary in-range choice, so the model cannot say that artists or objects are equally likely.
- `objs.sort` is Python's built-in Timsort, which sorts in place and is not part of the repository. It is modelled as a function computing a stable insertion sort on values. The model uses the properties that matter here: the output is sorted, is a permutation, and is stable.
- `random.sample` is CPython library code and is not part of the repository. `Random.Sample` follows the branch that copies the population into a list and moves the last unchosen object into each vacancy. The branch CPython uses for small samples of large populations (a set of chosen indices) is not modelled. It too returns objects from distinct positions.
- The model follows Python 2, which the file was written for (it imports from `__future__`). There `dict.keys()` is a list that `random.choice` can index. Under Python 3 it is a view, and `random.choice` raises TypeError on it.
- Random.EqualChance: does not model the size limit of Python 2's `range(opts.number)` on line 48, which builds a whole list. A `number` above `sys.maxsize` raises OverflowError, and a very large one raises MemoryError before the first round. The model returns `min(number, len(objs))` objects for every positive `number`.
- The order of the dictionary's items is not modelled faithfully. A Python 2 dictionary has an arbitrary order, and the model keeps insertion order instead. No contract depends on this order, because each round's artist is drawn from every key.
- An object whose album artist is `None` is not modelled. Album artists are unicode strings compared by code point.
- `opts.number` is an `int`, as the option parser guarantees. Non-integer values are not modelled.
