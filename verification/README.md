# Nearby-people recommender: a verified Dafny model

The recommender keeps people (id, name, age, latitude, longitude) in a
two-dimensional k-d tree. It answers "the k people nearest to a user whose
age is within a given distance of the user's". A map page asks for these
recommendations and shows them as markers. This project models three parts
and proves what each one promises:

- **The bounded priority queue** (`bounded_priority_queue.dfy`, module
  `BoundedQueue`).
  - It holds at most `bound` (distance, item) cells and keeps the smallest
    distances pushed.
  - The class `BoundedPriorityQueue` holds the heap cells as a sequence.
  - Pure functions give the outcome of a push (`AfterPush`) and the drain
    order (`PopOrder`, `Drain`).
  - Lemmas prove:
    - the size bound
    - rejection of worse priorities and eviction of the maximum
    - that the retained priorities are at most every discarded one
    - that `get_as_list` returns every cell once, in non-decreasing distance
- **The k-d tree index** (`kd_tree.dfy`, module `KdTree`, and
  `kd_tree_store.dfy`, module `KdTreeStore`).
  - The exact median split, the construction alternating latitude and
    longitude, point lookup, leaf insertion and the age-filtered k-nearest
    search are functions on a `Tree` value, with lemmas for:
    - permutation and split order
    - the k-d invariant
    - keys and sizes
    - what the search may report, and how many people it reports
    - that pruning by the splitting line finds the nearest people, where the
      source's pruning test can miss them
  - The class `KDTreeDataStore` keeps the store's in-memory dict (`kvStore`):
    - the root id under `"root_id"`
    - one node dict per person, naming its subtrees by their root ids
  - Each index method walks that dict as the source does. It is proved to do
    to the dict what the tree functions say, against a ghost `Shape` tree.
  - `Valid()` (root id stored, every node stored, distinct ids, k-d order)
    is preserved by construction and insertion.
- **The map view model** (`name_format.dfy`, module `NameFormat`, and
  `maps_controller.dfy`, module `MapsController`).
  - `toTitleCase` is the global `\w\S*` replacement, proved equal to a
    position-by-position reference and proved idempotent.
  - A neighbour's name has its first comma replaced.
  - The class `MapsScope` has:
    - the fitBounds time gate, which keeps fits more than 500 ms apart
    - the response handler, which rebuilds markers and bounds in response
      order
    - ageChange, latChange and lngChange, which update one field of marker 0
    - the marker's dragend event

Shared pieces:
- `results.dfy` (`Option`, `Result`, and the Python exception kinds a call
  can raise).
- `sorting.dfy`: a stable sort by an integer key, standing for numpy's
  argsort in the median split and for `list.sort` on the result.
- `int_text.dfy`: the `str(int(s) + 1)` of `mem_incr`.

Modelling choices:
- Coordinates and distances are integers. In the GUI they are units of
  1e-7 degree, so 51.515366 is 515153660.
- The great-circle distance is a function parameter `dist`. Because the
  source's `distance` tests `if axis:`, axis 0 (latitude) prunes with the
  full distance to the node. Axis 1 (longitude) prunes with the north–south
  gap to the node's latitude, taken at the target's longitude.
  `KdTree.PruneDistance` keeps this.
- The search functions take a `Pruning` argument. `AsWritten` tests the far
  side with `PruneDistance`, as the store's methods do. `ToLine` tests it
  with `LineDistance`, the distance to the splitting line. That is the
  corrected test under "Findings".
- Python's truthiness of ids is explicit: `None` and `""` are both "no
  child".
- Exceptions the source would raise are `Err` values:
  - a missing key, or an empty index, gives `KeyError`
  - subscripting `None` gives `TypeError`
  - an empty heap gives `IndexError`
  - a missing root id in the search gives `ValueError`
  - a queue with bound 0 raises `TypeError` on push and `IndexError` when the
    search reads its top
- The store's index methods take the source's `axis` argument. A ghost depth
  ties them to the tree functions, which use `depth % 2`.
- fitBounds skips a call made exactly 500 ms after the last fit, because the source tests `lastBounding >= now - 500`.

## Model

| member | source | states |
|---|---|---|
| BoundedQueue.Head | data_store/bounded_priority_queue.py:39-45 | heappop takes the cell that is least in (negated priority, push index) order |
| BoundedQueue.Front | data_store/bounded_priority_queue.py:47-55 | peek is None exactly on an empty queue, else a held cell with the largest priority that pops before every other cell (the earliest pushed among equal priorities) |
| BoundedQueue.AfterPush | data_store/bounded_priority_queue.py:22-29 | push as a function of the queue's fields; its properties are PushKeepsBound, PushRejectsWorse and PushEvictsMaximum |
| BoundedQueue.PopOrder | data_store/bounded_priority_queue.py:99-117 | the ranks in the order repeated heappop returns them; proved a permutation in DrainSortedPermutation |
| BoundedQueue.Drain | data_store/bounded_priority_queue.py:99-117 | the reversed pop order that get_as_list returns; proved sorted and a permutation in DrainSortedPermutation |
| BoundedQueue.PushKeepsBound | data_store/bounded_priority_queue.py:22-29 | a push raises exactly when the bound is below one; otherwise the invariant holds and size never exceeds bound |
| BoundedQueue.PushRejectsWorse | data_store/bounded_priority_queue.py:22-24 | on a full queue a priority at least the maximum leaves the queue unchanged |
| BoundedQueue.PushEvictsMaximum | data_store/bounded_priority_queue.py:22-29 | on a full queue a smaller priority evicts exactly one maximum-priority cell and inserts the new one; size stays at bound |
| BoundedQueue.PushAllKeepsBest | data_store/bounded_priority_queue.py:22-29 | after any pushes the invariant and bound hold, the queue is full once anything was discarded, and every held priority is at most every discarded one |
| BoundedQueue.RetainedBelowDiscarded | data_store/bounded_priority_queue.py:22-29 | from an empty queue with bound at least one, no push sequence raises and retained priorities are at most rejected or evicted ones |
| BoundedQueue.DrainSortedPermutation | data_store/bounded_priority_queue.py:99-117 | the drained list is a permutation of the held cells, sorted by non-decreasing distance |
| BoundedQueue.Reversed | data_store/bounded_priority_queue.py:116 | list.reverse: same length and multiset, element i is element n-1-i |
| BoundedQueue.BoundedPriorityQueue.constructor | data_store/bounded_priority_queue.py:6-9 | empty queue, counter 0, the given bound |
| BoundedQueue.BoundedPriorityQueue.Push | data_store/bounded_priority_queue.py:11-29 | new state is AfterPush of the old; a failing push changes nothing |
| BoundedQueue.BoundedPriorityQueue.PopItem | data_store/bounded_priority_queue.py:31-37 | item of the root cell, which is removed; IndexError on an empty queue |
| BoundedQueue.BoundedPriorityQueue.Pop | data_store/bounded_priority_queue.py:39-45 | the root cell, removed from the queue; IndexError on an empty queue |
| BoundedQueue.BoundedPriorityQueue.Peek | data_store/bounded_priority_queue.py:47-55 | equals Front of the cells: None exactly on an empty queue, else the largest-priority cell that pops first |
| BoundedQueue.BoundedPriorityQueue.PeekItem | data_store/bounded_priority_queue.py:57-63 | the item of the largest-priority cell that pops before every other; IndexError on an empty queue |
| BoundedQueue.BoundedPriorityQueue.PeekItemPriority | data_store/bounded_priority_queue.py:65-71 | the largest priority held; IndexError on an empty queue |
| BoundedQueue.BoundedPriorityQueue.Size | data_store/bounded_priority_queue.py:73-79 | the number of cells, never above a non-negative bound |
| BoundedQueue.BoundedPriorityQueue.IsFull | data_store/bounded_priority_queue.py:85-91 | true exactly when size equals bound |
| BoundedQueue.BoundedPriorityQueue.GetAsList | data_store/bounded_priority_queue.py:93-117 | returns Drain of the old cells (sorted, a permutation) and leaves the queue empty |
| Sorting.SortBy | data_store/kd_tree_store.py:258-262 | argsort order: a permutation, same length, sorted by the key |
| Sorting.SortBySorted | data_store/kd_tree_store.py:258-262 | the stable sort leaves already sorted input as it is |
| IntText.ParseInt | data_store/kd_tree_store.py:359 | Python's `int()` of a text: an optional sign and decimal digits, ValueError otherwise; ParseShow proves it inverts ShowInt |
| IntText.ShowInt | data_store/kd_tree_store.py:359 | Python's `str()` of an integer; ParseShow proves the round trip |
| IntText.ParseShow | data_store/kd_tree_store.py:359 | int(str(n)) == n |
| IntText.IncrementShown | data_store/kd_tree_store.py:359 | incrementing the text of n gives the text of n + 1 |
| KdTree.GetMedian | data_store/kd_tree_store.py:253-265 | left + [median] + right is a permutation of the input, sizes n//2 and n - n//2 - 1, left keys <= median key <= right keys |
| KdTree.BuildTree | data_store/kd_tree_store.py:414-444 | _construct_index on values: the median of axis depth % 2 over the trees of the two halves; see BuildElements, BuildKdOrdered and BuildWellKeyed |
| KdTree.BuildElements | data_store/kd_tree_store.py:414-444 | the constructed tree holds exactly the input items |
| KdTree.BuildKdOrdered | data_store/kd_tree_store.py:429-442 | the constructed tree satisfies the k-d invariant on axis depth % 2 |
| KdTree.BuildWellKeyed | data_store/kd_tree_store.py:414-444 | items with distinct valid ids give a tree with distinct valid ids |
| KdTree.KeyedBranch | data_store/kd_tree_store.py:436-442 | in a tree with distinct ids the subtrees and the root share no id |
| KdTree.FindTree | data_store/kd_tree_store.py:660-686 | _find_item as written: a result is a stored node at the target's coordinates |
| KdTree.FindMissesEqualSplit | data_store/kd_tree_store.py:676-686 | as written, a stored person whose latitude equals the root's is not found |
| KdTree.FindTreeExact | data_store/kd_tree_store.py:660-686 | the corrected lookup: a result is a stored node at the target's coordinates |
| KdTree.FindExactComplete | data_store/kd_tree_store.py:660-686 | on a k-d ordered tree the corrected lookup finds every stored position |
| KdTree.InsertTree | data_store/kd_tree_store.py:615-647 | _insert_item on values: descend left only when the key is below the node's, hang the new leaf on the empty side; see InsertElements, InsertKdOrdered and InsertWellKeyed |
| KdTree.InsertParent | data_store/kd_tree_store.py:615-647 | the returned id is a node of the non-empty tree |
| KdTree.InsertElements | data_store/kd_tree_store.py:635-647 | insertion adds exactly the new person |
| KdTree.InsertIds | data_store/kd_tree_store.py:635-647 | insertion adds exactly the new id |
| KdTree.InsertKdOrdered | data_store/kd_tree_store.py:635-647 | leaf insertion (left only below the key) keeps the k-d invariant |
| KdTree.InsertWellKeyed | data_store/kd_tree_store.py:579-592 | inserting a fresh valid id keeps ids distinct |
| KdTree.FindAfterInsert | data_store/kd_tree_store.py:635-647 | after insertion the as-written lookup finds the inserted position |
| KdTree.PruneDistance | data_store/kd_tree_store.py:486-508 | `distance(target, node, axis)`: the full distance for axis 0, the north–south gap to the node's latitude at the target's longitude for axis 1 |
| KdTree.LineDistance | data_store/kd_tree_store.py:571-577 | the corrected pruning distance: to the splitting line through the node on the axis |
| KdTree.Offer | data_store/kd_tree_store.py:549-557 | push the node with its distance when the age is within range; see OfferKeeps, OfferCovers and OfferNearest |
| KdTree.KnnSearch | data_store/kd_tree_store.py:534-577 | _k_nearest_neighbors as a function of the queue it threads; see KnnSearchKeeps, KnnSearchCovers and KnnSearchNearest |
| KdTree.KnnChildren | data_store/kd_tree_store.py:559-577 | the near subtree, then the far step |
| KdTree.KnnFar | data_store/kd_tree_store.py:571-577 | the far subtree unless the queue is full and the pruning distance is not below its top; IndexError on a full empty queue |
| KdTree.KNearest | data_store/kd_tree_store.py:511-532 | k_nearest_neighbors on a tree: search, drain, sort by distance; see KNearestSound, KNearestTotal, KNearestCount and KNearestOptimal |
| KdTree.OfferKeeps | data_store/kd_tree_store.py:549-557 | pushing an age-admissible node with its distance keeps the queue invariant and its candidates, failing only on bound below one |
| KdTree.KnnSearchKeeps | data_store/kd_tree_store.py:534-577 | the search keeps the queue invariant and bound, holds only admissible people of the tree with their distance, and cannot fail when bound >= 1 |
| KdTree.KnnChildrenKeeps | data_store/kd_tree_store.py:559-577 | the same for the near-then-far descent |
| KdTree.KnnFarKeeps | data_store/kd_tree_store.py:571-577 | the same for the pruning decision on the far side |
| KdTree.KNearestSound | data_store/kd_tree_store.py:511-532 | the result is sorted by distance, has at most k entries, and each entry is an indexed person within the age proximity, with its distance |
| KdTree.KNearestTotal | data_store/kd_tree_store.py:511-532 | with k >= 1 the search does not raise |
| KdTree.NeighborsPermutation | data_store/kd_tree_store.py:529-531 | permuting the queue's cells permutes the dicts they become |
| KdTree.ResultHeld | data_store/kd_tree_store.py:529-531 | the returned list holds exactly the dicts of the queue's cells, one per cell |
| KdTree.PushCovers | data_store/bounded_priority_queue.py:22-29 | a push keeps the queue's dicts among those offered, and all of them unless the queue is full |
| KdTree.OfferCovers | data_store/kd_tree_store.py:549-557 | with bound >= 1 an offer succeeds and the queue covers the offered person's dict too |
| KdTree.KnnSearchCovers | data_store/kd_tree_store.py:534-577 | a searched subtree is fully offered: the queue holds only dicts offered so far, and every one of them unless it is full |
| KdTree.KnnChildrenCovers | data_store/kd_tree_store.py:559-577 | the same for both subtrees of a node |
| KdTree.KnnFarCovers | data_store/kd_tree_store.py:571-577 | the same for the far subtree: a pruned queue is full, and full stays full |
| KdTree.KNearestCount | data_store/kd_tree_store.py:511-532 | with k >= 1 the result has exactly min(k, m) entries, m the number of admissible people of the tree, and is a sub-multiset of their dicts |
| KdTree.PushKeepsNearest | data_store/bounded_priority_queue.py:22-29 | a push keeps every person either held with its distance or outranked by a full queue of no farther people |
| KdTree.PushMakesNearest | data_store/bounded_priority_queue.py:22-29 | the person pushed is held, or the full queue holds no one farther |
| KdTree.OfferNearest | data_store/kd_tree_store.py:549-557 | an offer keeps that property for the people already seen and adds the offered one |
| KdTree.PrunedNearest | data_store/kd_tree_store.py:571-577 | when the corrected test prunes, the full queue holds no one farther than any person beyond the splitting line |
| KdTree.KnnSearchNearest | data_store/kd_tree_store.py:534-577 | with the corrected test on a k-d ordered tree every person of a searched subtree is held or outranked |
| KdTree.KnnChildrenNearest | data_store/kd_tree_store.py:559-577 | the same for both subtrees of a node |
| KdTree.KnnFarNearest | data_store/kd_tree_store.py:571-577 | the same for the far subtree, searched or pruned |
| KdTree.ReportNearest | data_store/kd_tree_store.py:529-531 | a held person is in the returned list; otherwise the list is full and no entry is farther |
| KdTree.KNearestOptimal | data_store/kd_tree_store.py:511-577 | with the corrected test, k >= 1, a k-d ordered tree and a distance for which the splitting line is no farther than anyone beyond it, every admissible person is reported or k no farther ones are |
| KdTree.ManhattanLinesBound | data_store/kd_tree_store.py:571-577 | under the city-block distance the splitting line is no farther than anyone beyond it |
| KdTree.KNearestMissesNearer | data_store/kd_tree_store.py:486-508 | as written, a search for one neighbour on a k-d ordered tree keeps a person at distance 9 and misses one at distance 1, which the corrected test reports |
| KdTreeStore.TableKeys | data_store/kd_tree_store.py:414-444 | construction writes exactly one key per tree node |
| KdTreeStore.TableStores | data_store/kd_tree_store.py:414-444 | the written node dicts link each node to its subtrees' roots |
| KdTreeStore.ConstructStoresEach | data_store/kd_tree_store.py:414-444 | every input item is stored exactly once under its own id, and nothing else is written |
| KdTreeStore.BuildIndexed | data_store/kd_tree_store.py:387-412 | after construct_index the dict holds the built index with its root id |
| KdTreeStore.HangStored | data_store/kd_tree_store.py:635-641 | setting the empty child link on the target's side grafts the new leaf and returns that node's id |
| KdTreeStore.DescendStored | data_store/kd_tree_store.py:643-647 | grafting into the occupied side grafts into the whole tree with the same parent |
| KdTreeStore.InsertIndexed | data_store/kd_tree_store.py:579-592 | insert_item leaves the grown tree indexed; KeyError on an empty index, else the parent id; one new key; no other entry changes |
| KdTreeStore.KDTreeDataStore.constructor | data_store/kd_tree_store.py:78-84 | builds the index from the data list; valid when ids are distinct |
| KdTreeStore.Normalised | data_store/kd_tree_store.py:594-613 | the "None" link strings of get_node_from_id read as no child |
| KdTreeStore.KDTreeDataStore.MemSet | data_store/kd_tree_store.py:289-302 | in memory: kv_store[key] = value |
| KdTreeStore.KDTreeDataStore.HmemSet | data_store/kd_tree_store.py:304-317 | in memory: kv_store[key] = value |
| KdTreeStore.KDTreeDataStore.Hgetall | data_store/kd_tree_store.py:319-331 | the stored value; KeyError on a missing key |
| KdTreeStore.KDTreeDataStore.MemGet | data_store/kd_tree_store.py:333-345 | the stored value; None on a missing key |
| KdTreeStore.KDTreeDataStore.MemIncr | data_store/kd_tree_store.py:347-359 | replaces the text by that of its integer plus one; KeyError, TypeError or ValueError otherwise, with nothing changed |
| KdTreeStore.KDTreeDataStore.AddNodeProperties | data_store/kd_tree_store.py:458-470 | stores the item with the given left and right ids under its id |
| KdTreeStore.KDTreeDataStore.UpdateItemKey | data_store/kd_tree_store.py:472-483 | sets one child link of the node |
| KdTreeStore.KDTreeDataStore.GetNodeFromId | data_store/kd_tree_store.py:594-613 | the stored node with "None" links read as no child, written back in that form; KeyError for None or a missing id, TypeError for a non-dict, with nothing changed |
| KdTreeStore.KDTreeDataStore.ConstructIndex | data_store/kd_tree_store.py:387-412 | writes the tree's node dicts and the root id, and lowers the construction flag; Valid() when ids are distinct |
| KdTreeStore.KDTreeDataStore.ConstructIndexRec | data_store/kd_tree_store.py:414-444 | returns the root id (None for an empty list) and adds exactly the tree's node dicts |
| KdTreeStore.KDTreeDataStore.FindItem | data_store/kd_tree_store.py:649-658 | the as-written lookup from the stored root |
| KdTreeStore.KDTreeDataStore.FindItemRec | data_store/kd_tree_store.py:660-686 | walking the dict from a node id computes FindTree on that subtree |
| KdTreeStore.KDTreeDataStore.InsertItem | data_store/kd_tree_store.py:579-592 | Valid() is kept with Shape grown by the item; KeyError on an empty index, else the parent id; one new key; no other entry changes |
| KdTreeStore.KDTreeDataStore.InsertItemRec | data_store/kd_tree_store.py:615-647 | walking the dict grafts the item below the subtree and returns its parent (Grafted) |
| KdTreeStore.KDTreeDataStore.KNearestNeighbors | data_store/kd_tree_store.py:511-532 | ValueError on an empty index, else the KNearest result; the dict is unchanged |
| KdTreeStore.KDTreeDataStore.KNearestRec | data_store/kd_tree_store.py:534-571 | threading the queue through the dict computes KnnSearch on the subtree |
| KdTreeStore.KDTreeDataStore.KNearestFar | data_store/kd_tree_store.py:571-577 | the far-side step computes KnnFar: search unless full and the pruning distance is not below the top |
| NameFormat.RunEnd | gui/src/app/controllers/MapsController.js:15 | the greedy run of non-space characters ends at the next white space or the end |
| NameFormat.Capitalize | gui/src/app/controllers/MapsController.js:16 | the replacement of one token: its first character upper-cased and the rest lower-cased, same length |
| NameFormat.TitleCase | gui/src/app/controllers/MapsController.js:14-18 | toTitleCase keeps the length |
| NameFormat.TitleCaseAt | gui/src/app/controllers/MapsController.js:14-18 | each token head is upper-cased, the rest of each token lower-cased, characters outside tokens unchanged |
| NameFormat.TitleCaseIdempotent | gui/src/app/controllers/MapsController.js:14-18 | title casing twice equals title casing once |
| NameFormat.TitleCaseExample | gui/src/app/controllers/MapsController.js:14-18 | "jane doe" becomes "Jane Doe" |
| NameFormat.ReplaceFirst | gui/src/app/controllers/MapsController.js:100 | only the first occurrence of the character is replaced, and the length is kept |
| MapsController.DisplayNameAt | gui/src/app/controllers/MapsController.js:100-107 | the shown name is the title-cased name with its first comma made a space |
| MapsController.DisplayName | gui/src/app/controllers/MapsController.js:100-107 | `toTitleCase(name.replace(',', ' '))`; DisplayNameAt states it character by character |
| MapsController.NeighborMarker | gui/src/app/controllers/MapsController.js:100-107 | the marker of one neighbour: its latitude, longitude, and a message with image i+1, the shown name and the age |
| MapsController.NeighborMarkers | gui/src/app/controllers/MapsController.js:96-108 | one marker per item in response order; item i gives its latitude, longitude, image i+1, name and age |
| MapsController.NeighborBounds | gui/src/app/controllers/MapsController.js:96-103 | one point per item in response order, with its latitude and longitude |
| MapsController.FitStepSpaced | gui/src/app/controllers/MapsController.js:57-64 | the gate keeps every fit more than 500 ms after the previous one |
| MapsController.FitStepIdempotent | gui/src/app/controllers/MapsController.js:60-64 | a second call at the same instant changes nothing |
| MapsController.FitsApart | gui/src/app/controllers/MapsController.js:57-64 | in the fit history, fits i < j are more than (j - i) * 500 ms apart |
| MapsController.MapsScope.constructor | gui/src/app/controllers/MapsController.js:20-58 | age 20, the initial position, one centre marker, lastBounding 0, and the first query issued |
| MapsController.MapsScope.FitBounds | gui/src/app/controllers/MapsController.js:60-72 | the state follows FitStep; lastBounding is the last fit |
| MapsController.MapsScope.FetchRecommendations | gui/src/app/controllers/MapsController.js:88-91 | one query with the user's latitude, longitude and age |
| MapsController.MapsScope.OnRecommendations | gui/src/app/controllers/MapsController.js:92-113 | N+1 markers with marker 0 kept; N+1 bounds starting at the user; neighbours in response order; then the gate |
| MapsController.MapsScope.PushNeighbors | gui/src/app/controllers/MapsController.js:96-109 | the loop appends exactly NeighborMarkers and NeighborBounds |
| MapsController.MapsScope.AgeChange | gui/src/app/controllers/MapsController.js:121-127 | only marker 0's message changes, to the new age; one query |
| MapsController.MapsScope.LatChange | gui/src/app/controllers/MapsController.js:130-134 | only marker 0's latitude changes, to the user's; one query |
| MapsController.MapsScope.LngChange | gui/src/app/controllers/MapsController.js:137-141 | only marker 0's longitude changes, to the user's; one query |
| MapsController.MapsScope.OnDragEnd | gui/src/app/controllers/MapsController.js:75-81 | the user and marker 0 move to the dragged position; three identical queries |

## Left out

- The Redis backend: `r_server`, `mem_switch_to_redis`, and the Redis branches of the `mem_*` and `hgetall` methods. Only the in-memory dict is modelled.
- KdTreeStore.KDTreeDataStore.UpdateItemKey: the source always writes through the Redis client `r_server`, which is only assigned in Redis mode (data_store/kd_tree_store.py:50-59). The model gives the Redis-mode behaviour over the dict: the child link is set in the node map.
- KdTreeStore.KDTreeDataStore.InsertItem: gives the Redis-mode behaviour over the dict. In in-memory mode the source as written raises AttributeError on an insertion into a non-empty index, once the new node is written but before it is linked. That failure is not modelled.
- The HTTP server, the file loading, the multiprocessing loader, the profiling and the progress bars. These are I/O, concurrency or timing.
- The approximate-median branch of `get_median`. It samples at random. Only the exact branch is modelled.
- KdTree.GetMedian: numpy's default argsort promises no order among equal coordinates. The model uses the stable order. The proved properties (permutation, sizes, split order) hold whatever the order among ties.
- The haversine distance and all floating point. Distances come from the parameter `dist`, and coordinates are integers. The `float()`/`int()` conversions in `get_node_from_id` are identities here.
- KdTree.KNearestSound: does not claim that the result holds the k nearest admissible people, because the source's pruning test can miss nearer people even under a true metric (see "Findings"). KdTree.KNearestOptimal proves that property for the corrected test.
- KdTree.KNearestOptimal: assumes `LinesBound(dist)`, that the splitting line is no farther than anyone beyond it. The haversine distance meets this for a line of latitude. For a meridian the nearest point lies slightly poleward of the target's latitude, so the haversine distance meets it only approximately.
- The heap layout of `heapq`. The queue is a sequence, and the root is its least (key, index) cell.
- The `with_dist` flag of `get_as_list` (both branches produce the same dict) and the unused `k` argument of `_k_nearest_neighbors`.
- Aliasing of the item dicts. `add_node_properties` updates the caller's dict in place, and the model stores a copy.
- KdTreeStore.KDTreeDataStore.InsertItem: requires an id that is new to the index. Re-inserting a stored id overwrites its node dict and drops its links. That case is not modelled.
- IntText.ParseInt: Python's `int()` also accepts surrounding white space and digit-group underscores. The model accepts an optional sign and ASCII digits only.
- NameFormat.TitleCase: case mapping covers the ASCII letters only. JavaScript's full Unicode mapping is not modelled; it can change a string's length (for example ß to SS).
- MapsController.MapsScope.FitBounds: the source reads the clock twice, and the model takes one instant `now`. The map call itself, `leafletData.getMap`, `$timeout` and `invalidateSize`, is represented by the instant appended to `fits`.
- The HTTP request of `recommenderService.query` is represented by the `Query` it is made with. The response arrives as a later `OnRecommendations` call, in any order.
- The HTML templates of the popups. A message keeps only the values it embeds: the age, the image number and the name.
- The marker icon, `zoom` handling, `console.log`, and the application shell's routing and theming.

## Findings

| source | as written | input that shows it | evidently intended | confidence | as-written member | corrected member |
|---|---|---|---|---|---|---|
| data_store/kd_tree_store.py:676-686 | `_find_item` descends only right when the target's key equals the node's key | people a = (lat 5, lng 1) and b = (lat 5, lng 2) built in that order: b is the root with a on its left, and looking up a goes right and returns None | the median split sends equal keys left, so the lookup must also search left on an equal key | not executed | KdTree.FindMissesEqualSplit | KdTree.FindExactComplete |
| data_store/kd_tree_store.py:571-577 | the far side is pruned by `distance(target, node, axis)`. For axis 0 that is the full distance to the node. For axis 1 it is the north–south gap to the node's latitude, taken at the target's longitude. Neither is the distance to the splitting line | city-block distance; n = (lat 10, lng 100) with q = (0, 0) on its left and p = (10, 0) on its right; target (9, 0), k = 1, equal ages. The search keeps q at distance 9 and never visits p at distance 1 | prune by the distance to the splitting line, so that the k nearest admissible people are reported | not executed | KdTree.KNearestMissesNearer | KdTree.KNearestOptimal |
