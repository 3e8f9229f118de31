# LFU cache, modelled and verified in Dafny

This project models a generic least-frequently-used cache written in Go.
The model has two layers, as the original does.

- **`LinkedList`** (`linkedlist.dfy`): the intrusive, sentinel-based, circular
  doubly linked list (`internal/linkedlist/linkedlist.go`).
  - It is a `class List<T>`: a sentinel `root` and a `len` counter over heap
    `Element` objects whose `next`/`prev` links are rewired in place.
  - It carries a ghost abstraction: `Nodes` (elements front to back), `Values`
    and the footprint `Repr`.
  - Every operation is proved against that abstraction, and the ring invariant
    `Valid()` is preserved (links agree in both directions, the sentinel closes
    the ring, `len` counts the elements).
  - The iterator closures become methods returning the sequence of elements they
    would yield.
- **`LfuOrder`** (`lfu_order.dfy`): the reference order the cache promises,
  stated on its own.
  - The order is descending frequency, and within a frequency the most recently
    used entry first.
  - `Admit` places a new entry, `Touch` is one use of an entry, and eviction
    drops `Last`.
- **`LfuBuckets`** (`lfu_buckets.dfy`): the bucket structure.
  - `freqToList` is a sequence of buckets in ascending frequency, and
    `freqToElem` files each bucket's position under its frequency.
  - `Listing` reads the buckets in the order `All` walks them: last bucket to
    first, each bucket front to back.
  - Lemmas relate every bucket edit to the reference order.
- **`Lfu`** (`lfu.dfy`): `class Cache<K, V>`, with the fields of `cacheImpl`
  (`freqToList`, `freqToElem`, `keyToElem`, `capacity`, `minFreq`).
  - Its methods make the same field updates, in the same order and on the same
    branches, as `New`, `clearNodes`, `incrementFreq`, `Get`, `extractLatest`,
    `Put`, `All`, `Size`, `Capacity` and `GetKeyFrequency`.
  - Each method is proved against the reference order: `Entries()`, the
    listing of the buckets, is exactly what `All` yields.
    - A `Get` hit turns `Entries()` into `Touch(old(Entries()), q)`, where
      `q` is the key's position.
    - A `Put` of a cached key writes the value first, so it turns `Entries()`
      into `Touch(old(Entries())[q := old(Entries())[q].(value := value)], q)`:
      the use of the entries with the key's value replaced.
    - A `Put` of a new key turns it into `Admit(...)` of the entries that
      survive eviction.
  - The invariant `Valid()` holds between calls:
    - the buckets ascend and are each filed under their own frequency;
    - every entry has its bucket's frequency;
    - `keyToElem` files exactly the listed entries, with distinct keys;
    - the size is at most the capacity;
    - `minFreq` is the frequency of the entry eviction takes, so it is the
      least live frequency.

Three behaviours follow the code rather than an idealised LFU cache:
- `clearNodes` always makes sure a bucket for `f + 1` exists, even when the
  bucket for `f` stays non-empty.
- `extractLatest` leaves a bucket it empties in place, so an empty bucket may
  persist. The invariant therefore does not claim that there are no empty
  buckets.
- The list's `remove` silently ignores an element whose links are already
  null.

## Model

| member | source | states |
|---|---|---|
| LinkedList.Element.constructor | internal/linkedlist/linkedlist.go:65 | a new element holds its value and is linked to nothing |
| LinkedList.Element.Sentinel | internal/linkedlist/linkedlist.go:49-51 | the sentinel of an empty list links to itself both ways |
| LinkedList.List.constructor | internal/linkedlist/linkedlist.go:48-54 | a new list is a valid ring with no elements and length 0 |
| LinkedList.List.NodeConnection | internal/linkedlist/linkedlist.go:57-60 | links `first` forward to `second` and `second` back to `first`, changing no other link |
| LinkedList.List.Insert | internal/linkedlist/linkedlist.go:63-70 | a fresh element holding `v` enters the list right behind `dst`; every other element keeps its order, values stay paired, the ring stays valid and the length grows by one |
| LinkedList.List.Splice | internal/linkedlist/linkedlist.go:66-67 | the two link writes of insert turn the ring of the old elements into the ring with the new element at its place |
| LinkedList.List.Unlink | internal/linkedlist/linkedlist.go:73-81 | a linked element leaves the list, the rest keep their order, its links become null and the length drops by one; an element with a null link leaves the list unchanged |
| LinkedList.List.Bypass | internal/linkedlist/linkedlist.go:77-79 | linking a removed element's neighbours to each other leaves the ring without it, and clears its links |
| LinkedList.List.Root | internal/linkedlist/linkedlist.go:85-87 | the sentinel is returned, and it is never an element of the list |
| LinkedList.List.Len | internal/linkedlist/linkedlist.go:91-93 | the counter equals the number of elements in the ring |
| LinkedList.List.Front | internal/linkedlist/linkedlist.go:97-102 | the first element, or null when the list is empty |
| LinkedList.List.Back | internal/linkedlist/linkedlist.go:106-111 | the last element, or null when the list is empty |
| LinkedList.List.PushFront | internal/linkedlist/linkedlist.go:115-117 | the new element becomes the front, the old elements follow it in their order |
| LinkedList.List.PushBack | internal/linkedlist/linkedlist.go:121-123 | the new element becomes the back, the old elements precede it in their order |
| LinkedList.List.InsertAfter | internal/linkedlist/linkedlist.go:127-129 | the new element lands right after `mark` (at the front when `mark` is the sentinel); nothing else moves |
| LinkedList.List.InsertBefore | internal/linkedlist/linkedlist.go:133-135 | the new element lands right before `mark` (at the back when `mark` is the sentinel); nothing else moves |
| LinkedList.List.Remove | internal/linkedlist/linkedlist.go:140-143 | removes exactly `el`, keeping the order of the rest, and returns its value; on an already detached element the list is unchanged and the value is still returned |
| LinkedList.List.IterateNext | internal/linkedlist/linkedlist.go:147-157 | the forward iterator yields exactly the elements from front to back, then stops |
| LinkedList.List.IteratePrev | internal/linkedlist/linkedlist.go:161-171 | the backward iterator yields exactly the elements in reverse order, then stops |
| LinkedList.List.RingConsistent | internal/linkedlist/linkedlist.go:19-24 | in a valid list `x.next.prev == x` and `x.prev.next == x` for the sentinel and every element |
| LinkedList.List.NextPrevOfMember | internal/linkedlist/linkedlist.go:29-37 | `Next` of an element is its successor or the sentinel after the back; `Prev` is its predecessor or the sentinel before the front |
| LinkedList.InsertAt | internal/linkedlist/linkedlist.go:63-70 | inserting at `k` puts `x` at `k`, keeps the elements before `k` and shifts the rest back by one |
| LinkedList.RemoveAt | internal/linkedlist/linkedlist.go:73-81 | removing at `k` keeps the elements before `k` and shifts the rest forward by one |
| LinkedList.DistinctInsertAt | internal/linkedlist/linkedlist.go:63-70 | inserting a fresh element keeps the elements distinct |
| LinkedList.DistinctRemoveAt | internal/linkedlist/linkedlist.go:73-81 | removing keeps the elements distinct and the removed one is gone |
| LinkedList.RingAfterInsert | internal/linkedlist/linkedlist.go:63-70 | the links after insert's two connections form the ring of the list with the new element |
| LinkedList.RingAfterRemove | internal/linkedlist/linkedlist.go:73-81 | the links after remove's connection form the ring of the list without the element |
| LinkedList.ReversedIndex | internal/linkedlist/linkedlist.go:161-171 | position `i` of the reversal holds element `n - 1 - i` |
| LinkedList.ReversedAt | internal/linkedlist/linkedlist.go:161-171 | a sequence holding the elements last-first is the reversal |
| LfuOrder.DistinctUnique | internal/lfu/lfu.go:66 | proof helper for the one fact that `keyToElem` holds each key once: the recursive statement (no repeats) gives the pairwise one |
| LfuOrder.UniqueDistinct | internal/lfu/lfu.go:66 | proof helper for the same fact, the other way: pairwise different keys are listed without repeats |
| LfuOrder.Position | internal/lfu/lfu.go:66 | a listed key's position holds it and no earlier position does |
| LfuOrder.Admit | internal/lfu/lfu.go:24-32 | the reference insertion: an entry joins in front of every entry of its frequency and behind every higher one, one entry longer; AdmitPlace, AdmitAhead and AdmitPermutes state its properties |
| LfuOrder.Touch | internal/lfu/lfu.go:108-115 | the reference use: the entry leaves its place and is admitted again one use more, the length kept; TouchPermutes, TouchDescending, TouchKeys and TouchLeast state its properties |
| LfuOrder.Last | internal/lfu/lfu.go:24-26 | the reference eviction candidate: the last entry of the listing; LastIsLeast and Evicted state that it has the least frequency and is the one extractLatest removes |
| LfuOrder.AdmitPermutes | internal/lfu/lfu.go:150-162 | admission adds the new entry and loses none |
| LfuOrder.AdmitPlace | internal/lfu/lfu.go:24-26 | admission inserts the entry behind every entry of higher frequency and in front of the first entry of no higher frequency |
| LfuOrder.AdmitAt | internal/lfu/lfu.go:24-26 | the one place that splits higher from no higher frequencies is where admission inserts |
| LfuOrder.AdmitDescending | internal/lfu/lfu.go:31-32 | admission keeps the listing in descending frequency |
| LfuOrder.AdmitAhead | internal/lfu/lfu.go:31-32 | in a descending listing the admitted entry comes first among the entries of its frequency |
| LfuOrder.AdmitLeast | internal/lfu/lfu.go:150 | admitting an entry of the least frequency makes its frequency the last one |
| LfuOrder.AdmitKeepsLast | internal/lfu/lfu.go:24-26 | admitting an entry of no lower frequency leaves the eviction candidate as it was |
| LfuOrder.AdmitKeys | internal/lfu/lfu.go:162 | admitting a new key keeps keys distinct and adds exactly that key |
| LfuOrder.RemoveKeys | internal/lfu/lfu.go:130 | removing an entry keeps keys distinct and drops exactly its key |
| LfuOrder.RemoveDescending | internal/lfu/lfu.go:111 | removing an entry keeps the listing in descending frequency |
| LfuOrder.TouchDescending | internal/lfu/lfu.go:108-115 | a use keeps the listing in descending frequency |
| LfuOrder.TouchPermutes | internal/lfu/lfu.go:108-115 | a use replaces the used entry by itself one use more, and changes nothing else |
| LfuOrder.RemovePermutes | internal/lfu/lfu.go:111 | removal loses exactly the removed entry |
| LfuOrder.TouchKeys | internal/lfu/lfu.go:108-115 | a use keeps the same keys, distinct |
| LfuOrder.LastIsLeast | internal/lfu/lfu.go:24-26 | the last entry of a descending listing has the least frequency |
| LfuOrder.TouchLeast | internal/lfu/lfu.go:97-102 | after a use the least frequency goes up by one exactly when the used entry was alone at the least frequency; otherwise it is unchanged |
| LfuOrder.KeyCount | internal/lfu/lfu.go:180-182 | with distinct keys there are as many keys as entries |
| LfuBuckets.AscendingIncreasing | internal/lfu/lfu.go:64 | proof helper for the one fact that the buckets ascend in frequency: the neighbour-by-neighbour statement gives the pairwise one |
| LfuBuckets.IncreasingAscending | internal/lfu/lfu.go:64 | proof helper for the same fact, the other way |
| LfuBuckets.UniformSettled | internal/lfu/lfu.go:64 | proof helper for the one fact that each entry has its bucket's frequency: the recursive statement gives the bucket-by-bucket one |
| LfuBuckets.SettledUniform | internal/lfu/lfu.go:64 | proof helper for the same fact, the other way |
| LfuBuckets.Listing | internal/lfu/lfu.go:167-170 | the reference traversal `All` performs: buckets from the back of `freqToList` (highest frequency) to the front, each bucket front to back; ListingSplit, BucketSpan and ListingDescending state its properties |
| LfuBuckets.ShiftUp | internal/lfu/lfu.go:94 | the bucket handles after a bucket is inserted at a position: every filed frequency stays filed, and handles at or behind the position move back by one |
| LfuBuckets.ShiftDown | internal/lfu/lfu.go:98-99 | the bucket handles after the bucket at a position is removed: every filed frequency stays filed, and handles behind it move forward by one |
| LfuBuckets.ListingAppend | internal/lfu/lfu.go:167-170 | the listing of two runs of buckets is the later run's entries, then the earlier run's |
| LfuBuckets.ListingSplit | internal/lfu/lfu.go:167-170 | the listing is the entries above a bucket, the bucket's own, then those below it |
| LfuBuckets.ListingMember | internal/lfu/lfu.go:167-170 | every listed entry is an entry of some bucket |
| LfuBuckets.ListingWithin | internal/lfu/lfu.go:167-170 | bounds on the buckets' frequencies bound the listed entries' frequencies |
| LfuBuckets.BucketSpan | internal/lfu/lfu.go:167-170 | a bucket's entries occupy one contiguous span of the listing; everything in front has a higher frequency, everything behind a lower one |
| LfuBuckets.SpanAt | internal/lfu/lfu.go:167-170 | the entry at `j` of a bucket is listed at the bucket's offset plus `j` |
| LfuBuckets.ListingDescending | internal/lfu/lfu.go:31-32 | the listing of ascending, settled buckets is in descending frequency |
| LfuBuckets.BucketOf | internal/lfu/lfu.go:65 | every listed entry is in the bucket filed under its frequency |
| LfuBuckets.PushFrontListing | internal/lfu/lfu.go:114 | pushing an entry onto the front of its frequency's bucket admits it to the listing |
| LfuBuckets.SetListing | internal/lfu/lfu.go:140 | a value write in a bucket changes the listing at one place only |
| LfuBuckets.RemoveListing | internal/lfu/lfu.go:111 | removing an entry from a bucket removes it from the listing at its place |
| LfuBuckets.InsertEmptyListing | internal/lfu/lfu.go:93-94 | inserting an empty bucket leaves the listing as it was |
| LfuBuckets.RemoveEmptyListing | internal/lfu/lfu.go:98 | removing an empty bucket leaves the listing as it was |
| LfuBuckets.IndexedInsert | internal/lfu/lfu.go:94 | inserting a bucket for a new frequency and filing it keeps every frequency filed at its bucket |
| LfuBuckets.IndexedRemove | internal/lfu/lfu.go:98-99 | removing a bucket and unfiling its frequency keeps every other frequency filed at its bucket |
| LfuBuckets.LeastBucket | internal/lfu/lfu.go:128-129 | the bucket filed under the least listed frequency exists, and its back entry is the last listed entry |
| LfuBuckets.ShapedInsert | internal/lfu/lfu.go:92-95 | an empty bucket for an unfiled frequency inserted between lower and higher ones keeps the structure and the listing |
| LfuBuckets.ShapedRemove | internal/lfu/lfu.go:97-99 | removing an empty bucket and unfiling it keeps the structure and the listing |
| LfuBuckets.AloneInBucket | internal/lfu/lfu.go:97 | an entry is alone at its frequency exactly when its bucket holds nothing else |
| LfuBuckets.ShapedRemoveEntry | internal/lfu/lfu.go:111 | removing an entry from its bucket keeps the structure and removes it from the listing at its place |
| LfuBuckets.ShapedPushFront | internal/lfu/lfu.go:114 | pushing an entry of the bucket's frequency keeps the structure and admits the entry |
| LfuBuckets.ShapedSetEntry | internal/lfu/lfu.go:140 | replacing an entry by one of the same frequency keeps the structure and changes the listing at its place only |
| LfuBuckets.GrowAbove | internal/lfu/lfu.go:92-95 | the bucket for `f + 1` made right after the bucket for `f` keeps the structure and the listing, and the bucket for `f` stays filed |
| LfuBuckets.Above | internal/lfu/lfu.go:94 | when `f + 1` is not filed, the bucket after the one for `f` is for a higher frequency than `f + 1` |
| LfuBuckets.DropEmpty | internal/lfu/lfu.go:97-99 | dropping the empty bucket for `f` keeps the structure and the listing, unfiles `f` and keeps every other frequency filed |
| LfuBuckets.ListingPositive | internal/lfu/lfu.go:150 | every listed frequency is at least 1 |
| Lfu.StoredAt | internal/lfu/lfu.go:66 | a stored key's entry is listed, at the key's position |
| Lfu.StoredIndex | internal/lfu/lfu.go:66 | every listed entry is the one its key files |
| Lfu.StoredUnique | internal/lfu/lfu.go:66 | the key index is determined by the listing |
| Lfu.StoredCount | internal/lfu/lfu.go:180-182 | the key index holds as many keys as there are listed entries |
| Lfu.StoredTouch | internal/lfu/lfu.go:113-114 | after a use the index, with the used entry re-filed one use more, files the new listing |
| Lfu.StoredAdmit | internal/lfu/lfu.go:162 | after admission the index, with the new key filed, files the new listing |
| Lfu.StoredEvict | internal/lfu/lfu.go:129-130 | after eviction the index without the evicted key files the shortened listing |
| Lfu.StoredSet | internal/lfu/lfu.go:140 | after a value write the index, with the entry re-filed, files the new listing |
| Lfu.PairsOfStored | internal/lfu/lfu.go:165-177 | `All` yields every stored key once, each with its stored value, as many pairs as the size, in descending frequency |
| Lfu.Filed | internal/lfu/lfu.go:109-111 | a stored key's entry is in the bucket filed under its frequency |
| Lfu.Placed | internal/lfu/lfu.go:109-111 | the entry found in a bucket is the stored entry, listed at the key's position |
| Lfu.Promoted | internal/lfu/lfu.go:97-102 | after a use the least listed frequency goes up exactly when the used entry was alone in its bucket at `minFreq` |
| Lfu.Cleared | internal/lfu/lfu.go:91-104 | clearNodes keeps the structure and the listing, leaves a bucket for `f + 1` filed, and raises `minFreq` exactly when the bucket for `f` was empty and `f` was `minFreq` |
| Lfu.GrownShape | internal/lfu/lfu.go:92-95 | the first half of clearNodes keeps the structure and listing and files `f + 1` |
| Lfu.PrunedShape | internal/lfu/lfu.go:97-103 | the second half of clearNodes keeps the structure and listing and keeps `f + 1` filed |
| Lfu.LinkedShape | internal/lfu/lfu.go:114 | pushing an entry onto its frequency's bucket admits it and files it under its key |
| Lfu.UnlinkedShape | internal/lfu/lfu.go:111 | removing an entry from its bucket keeps the structure and every bucket filed where it was |
| Lfu.Requeued | internal/lfu/lfu.go:108-115 | remove, clearNodes, then push-front re-admits the entry one use more and moves `minFreq` exactly as the least frequency moves |
| Lfu.Ranked | internal/lfu/lfu.go:109-111 | the entry found for the key is at the key's position, and the least frequency after its use is as `minFreq` will be |
| Lfu.Refiled | internal/lfu/lfu.go:113-114 | the index with the used entry raised one use files the touched listing, with the size unchanged |
| Lfu.StoredRaise | internal/lfu/lfu.go:113-114 | the same, for a listing and an index given directly |
| Lfu.Touched | internal/lfu/lfu.go:108-115 | proof step of Incremented: removing the entry at the key's position and re-admitting it one use more is `Touch` at that position |
| Lfu.SoundOf | internal/lfu/lfu.go:108-115 | proof step of Incremented: the facts Requeued, Refiled and Ranked establish about the state after incrementFreq make up the invariant |
| Lfu.Incremented | internal/lfu/lfu.go:108-115 | incrementFreq keeps the invariant, turns the listing into its use of the key, and re-files the key one use more |
| Lfu.Revalued | internal/lfu/lfu.go:140 | a value write keeps the structure and changes the listing at the key's place only |
| Lfu.Restored | internal/lfu/lfu.go:140 | after a value write the index still files exactly the listed entries |
| Lfu.Resettled | internal/lfu/lfu.go:140 | after a value write the cache keeps the invariant and the key stays found where it was |
| Lfu.PositionKept | internal/lfu/lfu.go:140 | a value write keeps the key's position and the last entry's frequency |
| Lfu.FoundKept | internal/lfu/lfu.go:140 | a value write leaves the entry found in the same bucket at the same place |
| Lfu.Rewrote | internal/lfu/lfu.go:139-140 | writing the value of a cached key keeps the invariant, changes the listing at the key's position only and keeps the key there |
| Lfu.Evicted | internal/lfu/lfu.go:127-131 | in a non-empty cache the `minFreq` bucket is filed and non-empty, and extractLatest drops exactly the last listed entry and its key, shrinking the size by one |
| Lfu.Least | internal/lfu/lfu.go:128-129 | the bucket filed under `minFreq` ends the listing, its back entry last |
| Lfu.Dropped | internal/lfu/lfu.go:129 | removing the back of the `minFreq` bucket drops the listing's last entry and keeps the structure |
| Lfu.Unfiled | internal/lfu/lfu.go:130 | after eviction the index without the key files the shortened listing |
| Lfu.Admitted | internal/lfu/lfu.go:150-162 | a new key with room enters with frequency 1; the cache keeps the invariant and its listing admits the entry |
| Lfu.Opened | internal/lfu/lfu.go:158-161 | a bucket for frequency 1 is filed, pushed to the front if missing, and the listing is untouched |
| Lfu.Enrolled | internal/lfu/lfu.go:150-162 | a new entry of frequency 1 admitted and filed leaves the invariant holding with 1 as `minFreq` |
| Lfu.Pairs | internal/lfu/lfu.go:171 | the pairs `All` yields for a listing: one `(key, value)` per entry, position by position |
| Lfu.Unlinked | internal/lfu/lfu.go:111 | the state after the bucket's Remove of one entry: that bucket loses the entry, nothing else changes |
| Lfu.Linked | internal/lfu/lfu.go:114 | the state after the bucket's PushFront: the entry heads that bucket and its key files it |
| Lfu.Rewritten | internal/lfu/lfu.go:140 | the state after the value write through the shared entry: bucket copy and index copy carry the new value |
| Lfu.Grown | internal/lfu/lfu.go:92-95 | the state after the first half of clearNodes: the bucket for `f` stays filed where it was, and the bucket list only grows |
| Lfu.Pruned | internal/lfu/lfu.go:97-103 | the state after the second half of clearNodes: an empty bucket for `f` is removed and unfiled, `minFreq` moving past `f` when it was `f` |
| Lfu.Extracted | internal/lfu/lfu.go:127-131 | the state after extractLatest: the back entry of the `minFreq` bucket is gone and its key unfiled, the bucket kept even when empty |
| Lfu.FirstBucketAdded | internal/lfu/lfu.go:158-161 | the state after the outer PushFront of an empty bucket filed under frequency 1 |
| Lfu.PairsAppend | internal/lfu/lfu.go:170-171 | yielding the next entry of a bucket appends its pair |
| Lfu.Cache.New | internal/lfu/lfu.go:73-87 | a new cache is valid and empty, with the given capacity or `DefaultCapacity` (5), and `minFreq` 0 |
| Lfu.Cache.Locate | internal/lfu/lfu.go:109-111 | a cached key is found in the bucket filed under its frequency |
| Lfu.Cache.BucketRemove | internal/lfu/lfu.go:111 | the bucket's Remove of the entry, nothing else changed |
| Lfu.Cache.BucketPushFront | internal/lfu/lfu.go:114 | the bucket's PushFront of the entry, its key re-filed, nothing else changed |
| Lfu.Cache.BucketSetValue | internal/lfu/lfu.go:140 | the shared entry gets the new value, in its bucket and in the key index |
| Lfu.Cache.AddNextBucket | internal/lfu/lfu.go:92-95 | the first half of clearNodes |
| Lfu.Cache.DropIfEmpty | internal/lfu/lfu.go:97-103 | the second half of clearNodes |
| Lfu.Cache.ClearNodes | internal/lfu/lfu.go:91-104 | clearNodes as a whole, whose effect Cleared states |
| Lfu.Cache.IncrementFreq | internal/lfu/lfu.go:108-115 | keeps the cache valid, turns its entries into their use of the key, raises the key's frequency by exactly one, and leaves every other key's entry and the capacity unchanged |
| Lfu.Cache.Get | internal/lfu/lfu.go:117-124 | a miss returns `KeyNotFound` and changes nothing; a hit returns the stored value and is a use of the key |
| Lfu.Cache.ExtractLatest | internal/lfu/lfu.go:127-131 | removes the back of the `minFreq` bucket and unfiles its key |
| Lfu.Cache.AddFirstBucket | internal/lfu/lfu.go:158-161 | an empty bucket for frequency 1 pushed to the front and filed |
| Lfu.Cache.Put | internal/lfu/lfu.go:133-163 | capacity 0: nothing changes. A cached key: the value is written, then the key is used. A new key: eviction of the last entry when full, then admission at frequency 1. The cache stays valid |
| Lfu.Cache.PutExisting | internal/lfu/lfu.go:139-143 | the entries become the use of the key after its value is written, and the cache stays valid |
| Lfu.Cache.PutAbsent | internal/lfu/lfu.go:145-162 | the entries become the survivors of eviction (all but the last when full) with the new entry admitted, and the cache stays valid |
| Lfu.Cache.PutNew | internal/lfu/lfu.go:150-162 | with room, the new entry is admitted at frequency 1 and the cache becomes valid |
| Lfu.Cache.All | internal/lfu/lfu.go:165-177 | the pairs yielded are exactly the pairs of the entries in reference order (see PairsOfStored) |
| Lfu.Cache.AllYields | internal/lfu/lfu.go:31-35 | what `All` yields from a valid cache: `Size()` pairs, every cached key exactly once with its stored value, in descending frequency |
| Lfu.Cache.MinFreqLeast | internal/lfu/lfu.go:68 | in a valid cache no cached key has a frequency below `minFreq`, and some cached key has exactly `minFreq` |
| Lfu.Cache.Size | internal/lfu/lfu.go:180-182 | a valid cache's size is its number of entries |
| Lfu.Cache.Capacity | internal/lfu/lfu.go:184-186 | a valid cache's size never exceeds its capacity |
| Lfu.Cache.GetKeyFrequency | internal/lfu/lfu.go:188-194 | a cached key's frequency as listed, with no error; for any other key -1 and `KeyNotFound`; no use is counted |

## Left out

- The cache's buckets are not built from `LinkedList.List`. Nesting a verified list of verified lists is too heavy, so the outer and inner lists are sequence values (`seq<Bucket>`, `seq<Node>`) that the cache's methods reassign. Each list operation the cache calls is written out on those sequences, with the effect proved for the class:
  - `PushFront` (lfu.go:114, 160, 162) prepends to the sequence (`BucketPushFront`, `AddFirstBucket`);
  - `InsertAfter` (lfu.go:94) is `InsertAt` one position behind the mark (`AddNextBucket`);
  - `Remove` (lfu.go:98, 111, 129) is `RemoveAt` at the element's position (`DropIfEmpty`, `BucketRemove`, `ExtractLatest`);
  - `Back` (lfu.go:129) is the last position of the bucket (`ExtractLatest`);
  - `Len() == 0` (lfu.go:97) is the test that the bucket's sequence is empty (`DropIfEmpty`);
  - `NewIteratorPrev` and `NewIteratorNext` (lfu.go:167, 169) are the outer loop of `Cache.All`, running from the last bucket to the first, and its inner loop, running over a bucket front to back, which is what `IteratePrev` and `IterateNext` are proved to yield.
- Handles into the lists are modelled as positions. `freqToElem` maps a frequency to the position of its bucket, and is re-aimed (`ShiftUp`, `ShiftDown`) when a bucket is inserted or removed. `keyToElem` maps a key to its entry, and the entry is found by its key's position in its bucket.
- A Go entry is shared by its bucket and `keyToElem`. The model keeps a copy in each place and updates both together (`BucketSetValue`, `BucketPushFront`). Aliasing is captured only in that sense.
- Lfu.Cache.New: the panic on a negative capacity is a precondition. The panic message, the map size hints and the identity of the `errors.New` value are not modelled.
- Lfu.Cache.Get: a miss returns `Err(KeyNotFound)` and no value. Go's zero value of `V` is not modelled.
- Lfu.Cache.All: the `iter.Seq2` callback and the early stop when `yield` returns false are left out. The method returns the whole sequence, and an early stop would take a prefix of it.
- LinkedList.List.IterateNext: the closures and their captured `current` are not first-class values. The method returns the sequence the closure yields. Iteration while the list is being changed is not modelled.
- LinkedList.List.IteratePrev: left out for the same reasons as IterateNext.
- Lfu.Cache.ExtractLatest: it requires the `minFreq` bucket to be filed and non-empty. The only caller is Put on a full cache of positive capacity, and Lfu.Evicted proves these facts hold there. Go would dereference nil otherwise.
- Lfu.Cache.Size: its contract is stated for a valid cache only.
- Lfu.Cache.Capacity: its contract is stated for a valid cache only, like Size.
- Lfu.Cache.IncrementFreq, Lfu.Cache.Get, Lfu.Cache.Put: they require `Valid()`. Every cache `New` returns satisfies it, and every method keeps it.
- LinkedList.List.Remove: it requires the element to be in this list or already detached. Removing an element of another list corrupts both lists' counters in Go and is not modelled.
- LinkedList.List.InsertAfter: it requires `mark` to be in this list or to be its sentinel. Go does not check this.
- LinkedList.List.InsertBefore: the same requirement on `mark` as InsertAfter.
- `List<T>` asks `T` for a default value (`T(0)`). Go's sentinel holds the zero value of `T`.
- `Element.Next` and `Element.Prev` are plain reads without a contract of their own. LinkedList.List.NextPrevOfMember states what they return.
- Go's `int` is at least 32 bits wide (64 on 64-bit platforms). Frequencies and lengths are unbounded here, so a wrap-around after 2^31 or 2^63 uses is not modelled.
- The `ListInterface` and `Cache` interface declarations are not modelled. The model states each method's contract on the class directly.
- The ASCII diagram at the end of `lfu.go` is a comment and is not modelled.
- Concurrency is not modelled. The original takes no locks, so callers must serialize access; interleavings are not modelled.
