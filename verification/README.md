# Verification of the 3drepobouncer core

A Dafny model of the parts of 3drepobouncer whose correctness is hardest to see from the code, with proofs about
all inputs, all runs and all reachable states. `dafny verify dfyconfig.toml` checks the whole project.

| file | what it models |
|---|---|
| `Wrappers.dfy` | optional values |
| `Words.dfy`, `GrowthPolicy.dfy` | machine words as bit sequences, bit smearing and masks; the bucket counts of the hash table |
| `HopscotchBuckets.dfy` | the bucket array of the hopscotch table: neighbourhood bitmaps, overflow flags, displacement |
| `HopscotchHash.dfy` | the table itself, as a class that refines a finite map, with rehash and its nested growth |
| `Matrices.dfy`, `Boxes.dfy` | 4x4 matrices and axis-aligned boxes over the reals |
| `SceneTree.dfy` | the tree of transformation nodes that the IFC importer builds on demand |
| `MemoryPool.dfy`, `PoolSharing.dfy` | the pool allocator of the JSON library; the reference counts of shared pools |
| `Dom.dfy`, `MembersMap.dfy` | JSON values, their events, the document that rebuilds them; the indexed member layout |
| `Sax.dfy`, `JsonParsers.dfy` | the event handler with its stack of parsers, and the parsers applications compose |
| `Query.dfy`, `BulkWriter.dfy` | queries and filter documents; batched and bulk writes |
| `Worker.dfy` | the queue worker: handlers, deliveries, and the task loop |

Objects with fields that the source updates are classes, loops are loops with invariants, and pure code is
functions. Contents of the hash table, live blocks of the pool and similar abstract values are ghost fields or
specification functions to which the methods are tied.

How the source is read:

- **Hash table.** The hash is any function, key equality is `==`, the neighbourhood size is any N from 4 to 62, and
  the load thresholds are arbitrary functions of the bucket count: no property depends on floating-point values. The
  growth policy is a power of two for any word width, or a strictly increasing table of counts. A refusal
  (`LengthError`) leaves everything as it was. A table that moves its values and is refused room in the middle of a
  rehash ends as `Abandoned`, about whose contents nothing is promised. Both have one cause, `Cornered`: at some bucket
  count from the present one on, the table wants room for its elements and is refused it. `HopscotchHash.NeverCornered`
  gives a condition on counts and thresholds under which that never happens, for any growth policy.
- **Scene tree.** Arithmetic is exact. The parent relation of the file is given with a rank that decreases towards
  the root. Group keys are sums, as written, so two pairs of parent and type may share a group, which hangs under the
  branch of one of the parents; they never coincide with object ids. Branches and groups have the identity as their
  matrix with one exception: a space hands its own translation to the node that it hangs under when that node is made
  for it (`SceneTree.LocalIsExact`; `SpaceMovesBranchExample` is an input). Vertices are in place all the same.
  Transforming a point checks the last row of the matrix, with a tolerance of 1e-5 (not rounded to a float here), and
  ends the process when it fails; `Import` and `ImportAll` say exactly when. A matrix that passes without being affine
  leaves a vertex off by what `Matrices.SeenFrom` says.
- **Memory pool.** Sizes are 64-bit words and wrap around. The documented behaviour holds exactly for requests where
  neither the rounding, nor the sum with the used size, nor the sum of header and capacity of a new chunk does
  (`MemoryPool.ServingIsExact`, and `ServesGrowthIsExact` for reallocation). Every request, faithful or not, keeps the
  used size of each chunk within its capacity. The totals over all chunks wrap around as well: while the chunks are
  where the base allocator granted them they are exact and in order (`TotalsAreExact`), and after a request whose header
  and capacity wrapped around `Size` can exceed `Capacity` (`TotalsOutOfOrder`).
- **JSON.** `Parser::StartArray` has no return statement and is read as returning null; its error is then reported
  at the end of the array. The handler has no method for nulls, so they are accepted by its base class and reach no
  parser, although `Parser` declares one. What a parser holds is the event it was given: the conversions that follow,
  also that of a string to an identifier, are not modelled.
- **Queries.** What can be observed of a document (a field has a value, a field is present, the elements of an
  array) is a parameter. The database reads a filter document with every field counting, as the source says of it
  (repo_database_handler_mongo.cpp lines 140-146); the reading in which only the last field of a repeated name counts
  is hypothetical, and `Query.RepeatedNameLoses` says what it would change. An equality with an empty list adds no
  field, which turns a condition that nothing meets into one that everything meets; `Query.FilterIgnoresEmptyLists`
  states the effect for all queries.
- **Worker.** Calls of the channel and of the process monitor do not fail. How decoding, file access, conversion and
  the command end is arbitrary. An undefined value does not appear in a reply. In the model and drawing handlers,
  an undefined error makes the error branch itself throw, so the message is refused. In the task loop a refused message
  goes to the end of the queue.

## Model

| member | source | states |
|---|---|---|
| `HopscotchHash.HopscotchHash.Run` | bouncer/src/repo/lib/hopscotch_map/hopscotch_hash.h:763-1243 | every run of insert, insert_or_assign, operator[], erase, clear, lookup, rehash and reserve goes through a sequence of contents in which each answer and each next contents are those of a plain finite map, and ends with the last of them; a command is refused, leaving everything as it was, or breaks the table only for a cause that its contents show, and when the table accommodates the run every command is answered |
| `HopscotchHash.HopscotchHash.Execute` | bouncer/src/repo/lib/hopscotch_map/hopscotch_hash.h:808-1166 | one command: the new contents and the answer are those of the plain map; it fails only if it stores an absent key that does not fit as things are, or rehashes, and growth is refused on the way; a refusal leaves everything as it was |
| `HopscotchHash.NextIsGranted` | bouncer/src/repo/lib/hopscotch_map/hopscotch_hash.h:1486-1528 | in a run that the table accommodates no command can fail |
| `HopscotchHash.NeverCornered` | bouncer/src/repo/lib/hopscotch_map/hopscotch_hash.h:1486-1528 | under any growth policy a table never fails to store `total` elements if every count up to `top` has a next count, at most an admissible `limit` that is enough for them, and the thresholds of all counts above `top` are above them |
| `HopscotchHash.PowersNeverCornered` | bouncer/src/repo/lib/hopscotch_map/hopscotch_growth_policy.h:120-136 | for powers of two with any growth factor: it is enough that 2^k times the factor is admissible and the thresholds beyond 2^k buckets are above the elements |
| `HopscotchHash.PrimesNeverCornered` | bouncer/src/repo/lib/hopscotch_map/hopscotch_growth_policy.h:380-387 | for the table of primes: it is enough that the count behind the j-th is admissible and the thresholds beyond the j-th are above the elements |
| `HopscotchHash.SettleIsLeast` | bouncer/src/repo/lib/hopscotch_map/hopscotch_hash.h:1208-1212 | a requested bucket count settles on the least count of the policy whose bucket array, with the tail of the last neighbourhood, is within the limits of policy and vector; it is refused exactly when there is none |
| `HopscotchHash.HopscotchHash.Visit` | bouncer/src/repo/lib/hopscotch_map/hopscotch_hash.h:545-557 | iteration from begin to end visits every entry of the map exactly once, and nothing else |
| `HopscotchHash.HopscotchHash.Begin` | bouncer/src/repo/lib/hopscotch_map/hopscotch_hash.h:763-770 | begin stands in front of all stored elements and is the end or points at one |
| `HopscotchHash.HopscotchHash.Advance` | bouncer/src/repo/lib/hopscotch_map/hopscotch_hash.h:545-557 | ++ passes exactly one element, skipping empty buckets and crossing over to the overflow list |
| `HopscotchHash.HopscotchHash.Find` | bouncer/src/repo/lib/hopscotch_map/hopscotch_hash.h:1726-1743 | finds the key exactly when the map has it, and then points at the entry with its value |
| `HopscotchHash.HopscotchHash.At` | bouncer/src/repo/lib/hopscotch_map/hopscotch_hash.h:1078-1105 | the value the map has for the key, or none |
| `HopscotchHash.HopscotchHash.Count` | bouncer/src/repo/lib/hopscotch_map/hopscotch_hash.h:1713-1723 | 1 if the map has the key, else 0 |
| `HopscotchHash.HopscotchHash.FindInBuckets` | bouncer/src/repo/lib/hopscotch_map/hopscotch_hash.h:1777-1805 | following the bits of the home bucket finds the key exactly when some bucket holds it |
| `HopscotchHash.HopscotchHash.FindInOverflow` | bouncer/src/repo/lib/hopscotch_map/hopscotch_hash.h:1807-1826 | the position of the key in the overflow list, or the length of the list |
| `HopscotchHash.HopscotchHash.Size` | bouncer/src/repo/lib/hopscotch_map/hopscotch_hash.h:788-800 | the stored element count is the cardinality of the map |
| `HopscotchHash.HopscotchHash.Insert` | bouncer/src/repo/lib/hopscotch_map/hopscotch_hash.h:1471-1484 | an absent key is added, a present one leaves the map as it is; the cursor points at the entry with the key; fails only for an absent key that does not fit without growth, when growth is refused at a count that wants room |
| `HopscotchHash.HopscotchHash.InsertOrAssign` | bouncer/src/repo/lib/hopscotch_map/hopscotch_hash.h:1444-1452 | the map is updated at the key; reports whether the key was absent; fails only as an insertion does |
| `HopscotchHash.HopscotchHash.Index` | bouncer/src/repo/lib/hopscotch_map/hopscotch_hash.h:1107-1126 | an absent key is added with the default; the cursor points at the value of the key; fails only as an insertion does |
| `HopscotchHash.HopscotchHash.Erase` | bouncer/src/repo/lib/hopscotch_map/hopscotch_hash.h:1031-1052 | removes exactly the key; returns 1 exactly when it was there |
| `HopscotchHash.HopscotchHash.EraseAt` | bouncer/src/repo/lib/hopscotch_map/hopscotch_hash.h:993-1010 | removes the entry under the cursor; the returned cursor continues with exactly the elements behind it |
| `HopscotchHash.HopscotchHash.Clear` | bouncer/src/repo/lib/hopscotch_map/hopscotch_hash.h:808-815 | the map is empty, the bucket count is unchanged |
| `HopscotchHash.HopscotchHash.Rehash` | bouncer/src/repo/lib/hopscotch_map/hopscotch_hash.h:1235-1239 | keeps the contents and reaches at least the requested count; refused when no admissible count is large enough; fails otherwise only if growth is refused while the values are stored; lands on the exact target when the thresholds leave room |
| `HopscotchHash.HopscotchHash.Reserve` | bouncer/src/repo/lib/hopscotch_map/hopscotch_hash.h:1241-1243 | keeps the contents; on success there are at least as many buckets as the elements need; fails only as a rehash to that count does |
| `HopscotchHash.HopscotchHash.SetMaxLoadFactor` | bouncer/src/repo/lib/hopscotch_map/hopscotch_hash.h:1225-1233 | recomputes both thresholds and keeps table and contents |
| `HopscotchHash.HopscotchHash.InsertValue` | bouncer/src/repo/lib/hopscotch_map/hopscotch_hash.h:1486-1528 | adds an absent entry; grows first when the load in the buckets is at the upper threshold; otherwise the place near the home, the load and the policy decide, before the call, whether it goes to a bucket, to the overflow list or into a larger table; terminates although it calls itself through rehash, as every nested table has more buckets; fails only if some count from the present one on wants room for these elements and is refused it, and certainly if that is the present one |
| `HopscotchHash.HopscotchHash.InsertUnderThreshold` | bouncer/src/repo/lib/hopscotch_map/hopscotch_hash.h:1495-1528 | the part behind the load check: the entry goes to a bucket exactly when there is a place near its home; otherwise to the overflow list when the load is below the lower threshold or growing would change no home in the neighbourhood, and into a larger table when it would; without a next count that is a length error |
| `HopscotchHash.HopscotchHash.InsertCrowded` | bouncer/src/repo/lib/hopscotch_map/hopscotch_hash.h:1515-1527 | without a place near the home: overflow list, growth or length error, as load and neighbourhood decide |
| `HopscotchHash.HopscotchHash.TryBuckets` | bouncer/src/repo/lib/hopscotch_map/hopscotch_hash.h:1495-1513 | stores the entry in a bucket exactly when the first empty bucket is probed and can be moved into reach; otherwise the neighbourhood is full and unchanged, and no empty bucket is probed or the one that was reached cannot be moved closer |
| `HopscotchHash.HopscotchHash.InsertInOverflow` | bouncer/src/repo/lib/hopscotch_map/hopscotch_hash.h:1602-1611 | appends to the overflow list and raises the flag of the home; invariant and contents follow |
| `HopscotchHash.HopscotchHash.WillNeighborhoodChangeOnRehash` | bouncer/src/repo/lib/hopscotch_map/hopscotch_hash.h:1535-1556 | true exactly when some value of the neighbourhood gets another home in the next bucket count; every value it reads without a check is there |
| `HopscotchHash.HopscotchHash.Grow` | bouncer/src/repo/lib/hopscotch_map/hopscotch_hash.h:1486-1494 | keeps the contents and reaches at least the next bucket count, exactly that when it has room for the elements; refused at once exactly when there is no admissible next count, and failing otherwise only for a refused nested growth |
| `HopscotchHash.HopscotchHash.RehashTo` | bouncer/src/repo/lib/hopscotch_map/hopscotch_hash.h:1300-1401 | both variants conserve the contents, rebuild bits and flags exactly and reach at least the given count, even when storing a value makes the new table grow in turn; failure is traced to a refused nested growth |
| `HopscotchHash.HopscotchHash.MoveInto` | bouncer/src/repo/lib/hopscotch_map/hopscotch_hash.h:1319-1335 | moving every value into the target, erasing it here, leaves the target with exactly the overflow list and all bucket values; abandoned only for a refused nested growth |
| `HopscotchHash.HopscotchHash.CopyInto` | bouncer/src/repo/lib/hopscotch_map/hopscotch_hash.h:1375-1399 | copying leaves this table as it is and gives the target the same contents; refused only for a refused nested growth |
| `HopscotchHash.HopscotchHash.AdoptOverflow` | bouncer/src/repo/lib/hopscotch_map/hopscotch_hash.h:1303-1313 | taking over the overflow list raises exactly the flags of the homes of its elements |
| `HopscotchHash.HopscotchHash.EraseFromOverflow` | bouncer/src/repo/lib/hopscotch_map/hopscotch_hash.h:1408-1426 | removes one element; the flag of its home is lowered exactly when no other element has that home |
| `HopscotchHash.HopscotchHash.EraseBucket` | bouncer/src/repo/lib/hopscotch_map/hopscotch_hash.h:1431-1441 | removes the value of a bucket and its bit, keeps the invariant and everything behind it |
| `HopscotchBuckets.ClaimedOnce` | bouncer/src/repo/lib/hopscotch_map/hopscotch_hash.h:276-304 | an occupied bucket is claimed by exactly one bit, that of its home; an empty one by none |
| `HopscotchBuckets.TailOwnsNothing` | bouncer/src/repo/lib/hopscotch_map/hopscotch_hash.h:130-148 | the buckets behind the addressable ones own no bits and no flag |
| `HopscotchBuckets.FindEmptyBucket` | bouncer/src/repo/lib/hopscotch_map/hopscotch_hash.h:1562-1572 | the first empty bucket within the probe limit; all buckets before it are occupied |
| `HopscotchBuckets.SwapEmptyBucketCloser` | bouncer/src/repo/lib/hopscotch_map/hopscotch_hash.h:1634-1673 | moves into the empty bucket, of the values whose home stays in reach, the one with the lowest home and of those the first; gives up exactly when no value may move |
| `HopscotchBuckets.Displace` | bouncer/src/repo/lib/hopscotch_map/hopscotch_hash.h:1506-1511 | ends with an empty bucket in reach exactly when moving the first possible value, over and over, gets it there; never at or below the home unless it started in reach; when it gives up no value may move into the empty bucket and the N buckets from the home are occupied as they were; keeps contents and invariant |
| `HopscotchBuckets.RelievableStep` | bouncer/src/repo/lib/hopscotch_map/hopscotch_hash.h:1634-1673 | whether an empty bucket gets into reach is the same before and after a move |
| `HopscotchBuckets.OneMovesFirst` | bouncer/src/repo/lib/hopscotch_map/hopscotch_hash.h:1639-1669 | at most one value is the first that may move into an empty bucket |
| `HopscotchBuckets.InsertNearHome` | bouncer/src/repo/lib/hopscotch_map/hopscotch_hash.h:1495-1511 | probing, displacement and placing together: the entry is stored exactly when there is a place near its home; otherwise nothing has changed but places outside the neighbourhood |
| `HopscotchBuckets.PlaceKeepsInvariant` | bouncer/src/repo/lib/hopscotch_map/hopscotch_hash.h:1581-1597 | storing a value within reach of its home and toggling the bit keeps the invariant and adds the entry |
| `HopscotchBuckets.RemoveKeepsInvariant` | bouncer/src/repo/lib/hopscotch_map/hopscotch_hash.h:1431-1441 | clearing a bucket and toggling the bit keeps the invariant and removes the key |
| `HopscotchBuckets.MoveKeepsInvariant` | bouncer/src/repo/lib/hopscotch_map/hopscotch_hash.h:1654-1664 | moving a value and toggling both bits keeps invariant, contents and element count |
| `HopscotchBuckets.OverflowKeepsInvariant` | bouncer/src/repo/lib/hopscotch_map/hopscotch_hash.h:1602-1611 | appending to the overflow list and raising the flag keeps the invariant |
| `HopscotchBuckets.UnoverflowKeepsInvariant` | bouncer/src/repo/lib/hopscotch_map/hopscotch_hash.h:1408-1426 | removing from the overflow list and recomputing the flag keeps the invariant |
| `HopscotchBuckets.FlagHomes` | bouncer/src/repo/lib/hopscotch_map/hopscotch_hash.h:1307-1313 | raises exactly the flags of the homes of a list |
| `HopscotchBuckets.IterationIsExact` | bouncer/src/repo/lib/hopscotch_map/hopscotch_hash.h:763-785 | bucket values followed by the overflow list are the map, each entry once |
| `Words.RoundUpToPowerOfTwo` | bouncer/src/repo/lib/hopscotch_map/hopscotch_growth_policy.h:145-159 | bit smearing returns the least power of two not below its argument, for every word width and every value up to the highest power of two |
| `Words.Smear` | bouncer/src/repo/lib/hopscotch_map/hopscotch_growth_policy.h:154-157 | after the shifts by 1, 2, 4, … every bit at or below the highest set bit is set and none above |
| `Words.PowerOfTwoTestIsExact` | bouncer/src/repo/lib/hopscotch_map/hopscotch_growth_policy.h:161-163 | the bit test accepts exactly the powers of two |
| `Words.MaskIsRemainder` | bouncer/src/repo/lib/hopscotch_map/hopscotch_growth_policy.h:113-115 | masking with 2^k - 1 is the remainder modulo 2^k |
| `Words.StoredHashSelectsSameBucket` | bouncer/src/repo/lib/hopscotch_map/hopscotch_hash.h:1866-1891 | a truncated stored hash selects the same bucket as the full hash for every hash exactly when there are at most 2^width buckets |
| `Words.StoredHashOnRehash` | bouncer/src/repo/lib/hopscotch_map/hopscotch_hash.h:1319-1333 | with the hash that a rehash uses, the bucket in the new table is always right, and that in the old table exactly when the old count allows the stored hash too or the new one does not |
| `GrowthPolicy.CreateIsLeast` | bouncer/src/repo/lib/hopscotch_map/hopscotch_growth_policy.h:94-108 | a policy settles on its least count not below the request, keeps zero, and refuses exactly what exceeds all its counts |
| `GrowthPolicy.NextGrows` | bouncer/src/repo/lib/hopscotch_map/hopscotch_growth_policy.h:120-129 | the next count is a strictly larger count of the same policy, by the growth factor or as the next prime; there is none exactly when the factor does not fit any more |
| `GrowthPolicy.MaxCountIsGreatest` | bouncer/src/repo/lib/hopscotch_map/hopscotch_growth_policy.h:132-135 | no count of the policy is above its greatest one, which is the highest power of two of the word |
| `GrowthPolicy.MaskSelectsBucket` | bouncer/src/repo/lib/hopscotch_map/hopscotch_growth_policy.h:113-115 | with a power-of-two count the mask selects hash modulo count |
| `GrowthPolicy.RoundUpIsLeast` | bouncer/src/repo/lib/hopscotch_map/hopscotch_growth_policy.h:145-159 | the rounding used by the policy is the least power of two |
| `GrowthPolicy.PrimePolicyIsValid` | bouncer/src/repo/lib/hopscotch_map/hopscotch_growth_policy.h:245-298 | the table of 51 primes is strictly increasing, as the search in it needs |
| `SceneTree.ImportAll` | ifcUtils/repo_ifc_serialiser.cpp:998-1110 | for every order of imports: one tree with exactly one node of each kind that an imported element needs (its leaf, the branches and type groups above it) and no others, each hanging where the parent relation and the type rule say and with the local matrix that the first such element gave it; metadata parents exact; each stored vertex, taken through the product of local matrices from the root, is the original matrix applied to the original vertex, exactly for affine matrices and otherwise up to what the last row is off; the process ends at the first element whose matrix fails the check of its last row |
| `SceneTree.NothingElse` | ifcUtils/repo_ifc_serialiser.cpp:889-996 | the kinds of the nodes are exactly those that some imported element needs |
| `SceneTree.LocalIsExact` | ifcUtils/repo_ifc_serialiser.cpp:830-996 | every local matrix: a leaf is moved to the centre of the hull of the first element that needed it; a branch or group has the identity, except that the first node above a space is moved to the centre of that space if the space is the first that needs it, unless it was put above a leaf |
| `SceneTree.SpaceMovesBranchExample` | ifcUtils/repo_ifc_serialiser.cpp:979-996 | the branch of a storey is moved by a space that is imported first |
| `SceneTree.AddKeepsMadeOf` | ifcUtils/repo_ifc_serialiser.cpp:830-972 | adding a node that fits keeps the whole tree made of the imported elements |
| `SceneTree.ReparentKeepsMadeOf` | ifcUtils/repo_ifc_serialiser.cpp:928-938 | hanging a leaf under the branch of its object keeps every node in its place |
| `SceneTree.NotEntered` | ifcUtils/repo_ifc_serialiser.cpp:889-972 | what is needed above an object that is itself above a space does not take the centre of that space |
| `SceneTree.IfcSerialiser.Import` | ifcUtils/repo_ifc_serialiser.cpp:1000-1083 | one element: earlier nodes keep their world transforms, a mesh is added below the leaf of the product or, for a space, below the node that the product itself would hang under; the tree stays made of the imported elements and all meshes are in place; the process ends, with nothing changed, exactly when the matrix fails the check |
| `SceneTree.IfcSerialiser.GetTransformationNode` | ifcUtils/repo_ifc_serialiser.cpp:889-972 | returns the leaf or branch of the object, creating what is missing above it, each node in its place and with its matrix; moves nothing that exists; terminates by the rank of the object |
| `SceneTree.IfcSerialiser.GetGroupNode` | ifcUtils/repo_ifc_serialiser.cpp:864-887 | the group node with the summed key, which never is the entry of an object; a new one hangs under the branch of the parent |
| `SceneTree.IfcSerialiser.GetParentNode` | ifcUtils/repo_ifc_serialiser.cpp:943-957 | the parent is the root without an IFC parent, the type group for an element below something that is none, and otherwise the branch of the IFC parent; everything above is there |
| `SceneTree.IfcSerialiser.GetParentId` | ifcUtils/repo_ifc_serialiser.cpp:974-996 | the leaf of the product, or for spaces the node that the product would hang under by the same rule |
| `SceneTree.IfcSerialiser.InsertBranchAboveLeaf` | ifcUtils/repo_ifc_serialiser.cpp:928-938 | a late branch takes the leaf's place and the leaf is hung under it; no world transform changes |
| `SceneTree.IfcSerialiser.CreateTransformationNode` | ifcUtils/repo_ifc_serialiser.cpp:830-862 | adds the node, its cached transform and its metadata link, keeping all three exact |
| `SceneTree.IfcSerialiser.LinkMetadata` | ifcUtils/repo_ifc_serialiser.cpp:848-859 | the object's one metadata node has exactly the object's transformation nodes as parents |
| `SceneTree.IfcSerialiser.LookUpWorld` | ifcUtils/repo_ifc_serialiser.cpp:845-846 | reading the cache, which may insert the identity, changes no cached transform |
| `SceneTree.CacheIsWorld` | ifcUtils/repo_ifc_serialiser.cpp:845-846 | the cached transform of every node is the product of the local matrices on its path from the root |
| `SceneTree.CachedIsInvertible` | ifcUtils/repo_ifc_serialiser.cpp:1070-1071 | every cached transform is a translation, so affine with determinant one |
| `SceneTree.EveryNodeReachesRoot` | ifcUtils/repo_ifc_serialiser.cpp:889-972 | following parents from any node ends at the root: the nodes form one tree |
| `SceneTree.ReparentKeeps` | ifcUtils/repo_ifc_serialiser.cpp:928-938 | hanging a leaf under an identity branch of the same parent keeps tree and cache |
| `SceneTree.AddKeepsTable` | ifcUtils/repo_ifc_serialiser.cpp:893-971 | registering a node keeps the table of shared ids exact in both directions |
| `SceneTree.BranchAboveKeepsTable` | ifcUtils/repo_ifc_serialiser.cpp:928-938 | registering a branch above a leaf keeps the table exact |
| `SceneTree.AddKeepsMetadata` | ifcUtils/repo_ifc_serialiser.cpp:848-859 | linking a node keeps metadata parents exact |
| `SceneTree.Corrected` | ifcUtils/repo_ifc_serialiser.cpp:1070-1079 | the corrected vertices, seen from the node, are where the original matrix puts the original ones, up to what its last row is off; the process ends exactly when the original matrix fails the check |
| `SceneTree.AffineIsInPlace` | ifcUtils/repo_ifc_serialiser.cpp:1070-1079 | with an affine original matrix every vertex is exactly in place |
| `SceneTree.Transformed` | ifcUtils/repo_ifc_serialiser.cpp:1005-1017 | all vertices are transformed; the process ends exactly when there is one and the matrix fails the check |
| `Matrices.InverseIsInverse` | bouncer/src/repo/lib/datastructure/repo_matrix.cpp:133-173 | the computed inverse is an inverse on both sides exactly when the determinant is not zero |
| `Matrices.Product` | bouncer/src/repo/lib/datastructure/repo_matrix.cpp:439-460 | the triple loop over the coefficient arrays computes the matrix product |
| `Matrices.MulAssociative` | bouncer/src/repo/lib/datastructure/repo_matrix.cpp:439-460 | the product is associative |
| `Matrices.MulByIdentity` | bouncer/src/repo/lib/datastructure/repo_matrix.cpp:24-33 | the default matrix is neutral on the right |
| `Matrices.MulOfIdentity` | bouncer/src/repo/lib/datastructure/repo_matrix.cpp:24-33 | the default matrix is neutral on the left |
| `Matrices.ApplyProduct` | bouncer/src/repo/lib/datastructure/repo_matrix.cpp:410-436 | applying a product to a vector is applying one factor after the other, for affine matrices |
| `Matrices.AffineClosed` | bouncer/src/repo/lib/datastructure/repo_matrix.cpp:133-173 | affine matrices are closed under product and inverse |
| `Matrices.AdjugateRight` | bouncer/src/repo/lib/datastructure/repo_matrix.cpp:133-173 | a matrix times its adjugate is the determinant times the identity |
| `Matrices.TransposeOfProduct` | bouncer/src/repo/lib/datastructure/repo_matrix.cpp:238-248 | the transpose of a product is the reversed product of the transposes |
| `Matrices.DeterminantOfTranspose` | bouncer/src/repo/lib/datastructure/repo_matrix.cpp:80-113 | a matrix and its transpose have the same determinant |
| `Matrices.TranslationsClosed` | bouncer/src/repo/lib/datastructure/repo_matrix.cpp:311-318 | products of translations are translations |
| `Matrices.TranslateTwice` | bouncer/src/repo/lib/datastructure/repo_matrix.cpp:311-318 | the product of two translations is the translation by the sum |
| `Matrices.TranslationIsInvertible` | bouncer/src/repo/lib/datastructure/repo_matrix.cpp:311-318 | a translation is affine with determinant one |
| `Matrices.CorrectionCancels` | ifcUtils/repo_ifc_serialiser.cpp:1070-1079 | placement times (inverse placement times original) applied to a vertex is the original applied to it |
| `Matrices.CorrectionNeedsLastRow` | bouncer/src/repo/lib/datastructure/repo_matrix.cpp:410-436 | correcting a vertex ends the process exactly when transforming it by the original does; otherwise the vertex is in place exactly when the last row evaluates to one there or the placement does not move it |
| `Matrices.CorrectionIsSeen` | ifcUtils/repo_ifc_serialiser.cpp:1070-1079 | for every original matrix: the corrected vertex is seen at its original place plus the translation times what the last row is off |
| `Matrices.CorrectionPasses` | ifcUtils/repo_ifc_serialiser.cpp:1070-1071 | the correction passes the check of the last row exactly when the original does |
| `Matrices.CheckIsExact` | bouncer/src/repo/lib/datastructure/repo_matrix.cpp:426-433 | a point is transformed exactly when no coefficient of the last row is off by more than 1e-5 |
| `Matrices.OffIsSmall` | bouncer/src/repo/lib/datastructure/repo_matrix.cpp:426-433 | for a matrix that passes the check, the last row is off by at most the tolerance times the sum of the absolute coordinates and one |
| `Boxes.Hull` | bouncer/src/repo/lib/datastructure/repo_bounds.cpp:43-69 | folding encapsulate over any list of finite points gives the least box that contains them |
| `Boxes.TransformIsTight` | bouncer/src/repo/lib/datastructure/repo_bounds.cpp:114-165 | the centre-extents transform contains the image of every point of the box and lies within every box that does |
| `MemoryPool.Pool.Malloc` | bouncer/src/repo/lib/rapidjson/allocators.h:321-335 | answer and chunks for every size; a request that is served faithfully gets an aligned block of at least its size inside the head chunk and apart from every live block; null exactly for size zero or a failing base allocator |
| `MemoryPool.Pool.Realloc` | bouncer/src/repo/lib/rapidjson/allocators.h:337-369 | answer, chunks and memory for every size; for a size that is served faithfully: growth is in place exactly when the block is the newest of the head chunk and fits, otherwise the full old contents are at a new place, and no other live block overlaps or changes |
| `MemoryPool.Pool.Move` | bouncer/src/repo/lib/rapidjson/allocators.h:359-366 | copies the full old contents, and for a faithful request touches no live block |
| `MemoryPool.Pool.ExtendHead` | bouncer/src/repo/lib/rapidjson/allocators.h:351-357 | the head chunk is extended, in word arithmetic; for a faithful request the grown block overlaps no other live block and memory is untouched |
| `MemoryPool.Pool.ServesGrowthIsExact` | bouncer/src/repo/lib/rapidjson/allocators.h:337-369 | on all three ways the caller gets a block that covers the new size in the room it is served from exactly when that size is served faithfully |
| `MemoryPool.Pool.GrowthDecided` | bouncer/src/repo/lib/rapidjson/allocators.h:351-357 | for faithful requests the test in word arithmetic decides as the exact sum would |
| `MemoryPool.Pool.AddChunk` | bouncer/src/repo/lib/rapidjson/allocators.h:390-402 | a new head chunk if the base allocator answers; blocks and chunks stay valid when header and capacity together do not wrap around |
| `MemoryPool.Pool.Clear` | bouncer/src/repo/lib/rapidjson/allocators.h:277-288 | leaves only the first chunk, empty |
| `MemoryPool.Pool.Size` | bouncer/src/repo/lib/rapidjson/allocators.h:304-310 | the sum of used bytes in word arithmetic; in a valid pool it is the exact sum and at most the capacity |
| `MemoryPool.Pool.Capacity` | bouncer/src/repo/lib/rapidjson/allocators.h:293-299 | the sum of capacities in word arithmetic; exact in a valid pool |
| `MemoryPool.AlignExact` | bouncer/src/repo/lib/rapidjson/allocators.h:326-326 | alignment adds at most seven bytes, except for the last seven words, which become zero |
| `MemoryPool.OverrunExample` | bouncer/src/repo/lib/rapidjson/allocators.h:327-334 | a request near the word size is answered with a block beyond its chunk |
| `MemoryPool.HeaderOverrunExample` | bouncer/src/repo/lib/rapidjson/allocators.h:393-393 | a new pool that is asked for 2^64 - 16 bytes asks its base allocator for eight and hands out a block beyond them |
| `MemoryPool.ServingIsExact` | bouncer/src/repo/lib/rapidjson/allocators.h:321-402 | from the head chunk and from a new one, the block covers the request and lies in what is there exactly when neither the rounding, nor the used size, nor header and capacity wrap around |
| `MemoryPool.SizeWithinCapacity` | bouncer/src/repo/lib/rapidjson/allocators.h:293-310 | as numbers, the used sizes add up to at most the capacities, whatever was asked for |
| `MemoryPool.DisjointFit` | bouncer/src/repo/lib/rapidjson/allocators.h:390-402 | disjoint chunks with their headers, all below some address, have capacities that together with the headers fit below it |
| `MemoryPool.TotalsAreExact` | bouncer/src/repo/lib/rapidjson/allocators.h:293-310 | in a valid pool neither total wraps around, so the words are the exact sums, with the size at most the capacity |
| `MemoryPool.TotalsOutOfOrder` | bouncer/src/repo/lib/rapidjson/allocators.h:293-310 | a run of two requests, the first of which wraps around with its header, after which the size is 2^64 - 8 and the capacity 65520 |
| `MemoryPool.BumpKeeps` | bouncer/src/repo/lib/rapidjson/allocators.h:331-334 | the bytes behind the used part are apart from every live block |
| `MemoryPool.AtHead` | bouncer/src/repo/lib/rapidjson/allocators.h:351-352 | a block that ends where the head chunk ends is its newest block, with its full size |
| `PoolSharing.Allocators.Create` | bouncer/src/repo/lib/rapidjson/allocators.h:168-189 | a new pool with one handle |
| `PoolSharing.Allocators.Copy` | bouncer/src/repo/lib/rapidjson/allocators.h:216-223 | one more handle on the same pool, counted |
| `PoolSharing.Allocators.Assign` | bouncer/src/repo/lib/rapidjson/allocators.h:224-233 | the handle refers to the other's pool; its old pool is released exactly when this was the last handle on it, never by an assignment to itself or within one pool |
| `PoolSharing.Allocators.Move` | bouncer/src/repo/lib/rapidjson/allocators.h:236-243 | the reference changes hands and the count stays exact |
| `PoolSharing.Allocators.MoveAssign` | bouncer/src/repo/lib/rapidjson/allocators.h:244-253 | the old pool is released exactly when this was its last handle; moving a handle to itself empties it |
| `PoolSharing.Allocators.Destroy` | bouncer/src/repo/lib/rapidjson/allocators.h:259-274 | a pool is released exactly when its last handle is destroyed, once, and no handle is left on it |
| `PoolSharing.AssignKeeps` | bouncer/src/repo/lib/rapidjson/allocators.h:224-233 | counting up before giving up keeps every count equal to the number of handles |
| `PoolSharing.ReleaseKeeps` | bouncer/src/repo/lib/rapidjson/allocators.h:259-274 | giving up a reference keeps every count equal to the number of handles |
| `PoolSharing.OnlyHolder` | bouncer/src/repo/lib/rapidjson/allocators.h:264-274 | a count of one means that no other handle refers to the pool |
| `Dom.ReplayRebuilds` | bouncer/src/repo/lib/rapidjson/document.h:1948-1985 | replaying the events of any built value onto any stack pushes exactly that value: order, duplicates, string storage and number flags included |
| `Dom.Document.Populate` | bouncer/src/repo/lib/rapidjson/document.h:2623-2630 | exactly one value is on the stack before it is popped, and the document becomes the visited value |
| `Dom.Document.EndObject` | bouncer/src/repo/lib/rapidjson/document.h:2849-2853 | pairs up the topmost values as members of the object below them |
| `Dom.Document.EndArray` | bouncer/src/repo/lib/rapidjson/document.h:2857-2861 | the topmost values become the elements of the array below them |
| `Dom.EventsDetermine` | bouncer/src/repo/lib/rapidjson/document.h:1948-1985 | built values with the same events are equal |
| `Dom.ConstructorsAgree` | bouncer/src/repo/lib/rapidjson/document.h:792-828 | word and flags of an integer depend only on its value, whichever constructor it comes through |
| `Dom.FlagsAreExact` | bouncer/src/repo/lib/rapidjson/document.h:1977-1983 | every flag that is set names a type as which the integer is read back |
| `Dom.NumberIsRebuilt` | bouncer/src/repo/lib/rapidjson/document.h:2823-2828 | the event chosen for a number rebuilds the same word and flags |
| `Dom.IntegerEvent` | bouncer/src/repo/lib/rapidjson/document.h:1977-1983 | the event by the mathematical value: the first of int, unsigned, 64-bit int and 64-bit unsigned that the integer fits |
| `Dom.ShortIsExact` | bouncer/src/repo/lib/rapidjson/document.h:2051-2058 | a copied string is stored inline exactly when it fits with a terminator, and then it is read back with its length and terminated, also at the greatest length |
| `Dom.PairUpFlatten` | bouncer/src/repo/lib/rapidjson/document.h:2849-2853 | members laid out as names and values are recovered |
| `MembersMap.MemberTable.AddMember` | bouncer/src/repo/lib/rapidjson/document.h:2304-2318 | appends the member, keeps the index exact, grows the capacity as written |
| `MembersMap.MemberTable.RemoveMember` | bouncer/src/repo/lib/rapidjson/document.h:2320-2342 | the last member takes the removed place; its entry and iterator follow; the index stays exact |
| `MembersMap.MemberTable.EraseMembers` | bouncer/src/repo/lib/rapidjson/document.h:2344-2376 | removes the range, keeps the order of the rest, and the index stays exact |
| `MembersMap.MemberTable.Reserve` | bouncer/src/repo/lib/rapidjson/document.h:2217-2226 | a larger layout with the same members and iterators |
| `MembersMap.MemberTable.Clear` | bouncer/src/repo/lib/rapidjson/document.h:2240-2250 | no members and no entries |
| `MembersMap.MemberTable.SetObjectRaw` | bouncer/src/repo/lib/rapidjson/document.h:2415-2432 | the table for a list of members holds that list with an exact index |
| `MembersMap.MemberTable.FindMember` | bouncer/src/repo/lib/rapidjson/document.h:2229-2238 | answers with a member of the name if there is one; the linear answer when at most one member has the name |
| `MembersMap.MemberTable.FindMemberLinear` | bouncer/src/repo/lib/rapidjson/document.h:2281-2288 | the first member of the name, or the end |
| `MembersMap.LookupsAgree` | bouncer/src/repo/lib/rapidjson/document.h:2229-2288 | the linear answer is the only admissible indexed answer for a name exactly when at most one member has it |
| `MembersMap.AllLookupsAgree` | bouncer/src/repo/lib/rapidjson/document.h:2229-2288 | indexed and linear lookup agree for all names exactly when names are unique |
| `MembersMap.EntriesAreMembers` | bouncer/src/repo/lib/rapidjson/document.h:2191-2209 | the index has exactly as many entries as there are members, which the relocation relies on |
| `MembersMap.Erased` | bouncer/src/repo/lib/rapidjson/document.h:2343-2376 | dropping entries and closing the gap restores an exact index |
| `MembersMap.Relocate` | bouncer/src/repo/lib/rapidjson/document.h:2191-2211 | copying from the back keeps all members and iterators |
| `Sax.RunIsDescent` | bouncer/src/repo/lib/repo_json_parser.h:385-484 | for every value, stack and tree of parsers: the stack machine accepts exactly when a recursive descent does and leaves the same state; an accepted run restores the stack; a run never touches an entry below the first, accepted or not |
| `Sax.Handler.Parse` | bouncer/src/repo/lib/repo_json_parser.h:488-498 | feeding events until one is rejected has the outcome of the descent; the stack is restored when accepted |
| `Sax.Handler.On` | bouncer/src/repo/lib/repo_json_parser.h:387-466 | each handler method makes one step of the machine |
| `Sax.NothingCalledWithoutParser` | bouncer/src/repo/lib/repo_json_parser.h:385-484 | no parser is called inside a value that has no parser, and it is accepted |
| `Sax.AcceptedMeansNoError` | bouncer/src/repo/lib/repo_json_parser.h:70-122 | an accepted value has made no parser fail: an error raised at the start of an object or array is reported at the latest at its end |
| `Sax.FailedAcceptsOnlyNull` | bouncer/src/repo/lib/repo_json_parser.h:473-482 | a parser with an error accepts nothing but null, which never reaches it |
| `Sax.DescentKeeps` | bouncer/src/repo/lib/repo_json_parser.h:385-484 | whatever every parser call keeps, a whole descent keeps |
| `JsonParsers.AcceptsExactly` | bouncer/src/repo/lib/repo_json_parser.h:70-384 | a value is accepted exactly when it conforms to the schema that the tree of parsers describes, nested and recursive parsers included |
| `JsonParsers.JsonErrorsStick` | bouncer/src/repo/lib/repo_json_parser.h:88-103 | a call raises the error of the called parser only, and errors are never taken back |
| `JsonParsers.NumbersAreRead` | bouncer/src/repo/lib/repo_json_parser.h:212-238 | a number array fills the components of a vector, colour or matrix in order; excess numbers are dropped, missing ones leave the initial (or, for colours, the old) component; no other parser changes |
| `JsonParsers.KindsStay` | bouncer/src/repo/lib/repo_json_parser.h:105-384 | calls never change what a parser is |
| `JsonParsers.ScalarIsRead` | bouncer/src/repo/lib/repo_json_parser.h:145-383 | a number, string, bool or variant parser accepts exactly the values of its form, and then its variable holds that value and no other parser has changed; otherwise it fails |
| `JsonParsers.ArrayIsRead` | bouncer/src/repo/lib/repo_json_parser.h:125-143 | an array parser passes each element in order to its element parser |
| `JsonParsers.DescentIsLocal` | bouncer/src/repo/lib/repo_json_parser.h:385-484 | what is read into a closed set of parsers depends on that set only, and changes nothing else |
| `JsonParsers.MembersAreRead` | bouncer/src/repo/lib/repo_json_parser.h:105-122 | members with distinct names are accepted exactly when each alone would be, and then each registered one has reached its own parser as if it was alone, and nothing else has changed |
| `JsonParsers.ObjectIsRead` | bouncer/src/repo/lib/repo_json_parser.h:105-122 | a whole object; a parser of bounds ends with what its two parsers hold |
| `JsonParsers.BoundsAreRead` | bouncer/src/repo/lib/repo_json_parser.h:240-262 | an object with number arrays min and max, in any order and among members of other names, is read as the coordinates of min followed by those of max |
| `Query.FilterIsExact` | bouncer/src/repo/core/handler/repo_database_handler_mongo.cpp:147-218 | without empty value lists the filter document selects exactly the documents the query asks for; with distinct siblings also if a repeated name counted only once |
| `Query.FilterIgnoresEmptyLists` | bouncer/src/repo/core/handler/repo_database_handler_mongo.cpp:156-172 | for every query the filter selects what is asked for when equalities with an empty list are ignored; it never loses a document |
| `Query.EqIsExactUnlessEmpty` | bouncer/src/repo/core/handler/repo_database_handler_mongo.cpp:156-172 | an equality alone is translated exactly if and only if its list is not empty |
| `Query.RepeatedNameExample` | bouncer/src/repo/core/handler/repo_database_handler_mongo.cpp:206-214 | two conditions on one name: the first is lost if only the last field counts |
| `Query.LastFieldSelectsMore` | bouncer/src/repo/core/handler/repo_database_handler_mongo.cpp:140-146 | a document that meets all fields of a filter is selected also if only the last field of a name counts, in nested documents as well |
| `Query.RepeatedNameLoses` | bouncer/src/repo/core/handler/repo_database_handler_mongo.cpp:206-214 | where nested documents read alike, the two readings differ on a document exactly when it meets the last field of every name and fails a field that a later one of its name follows |
| `Query.FilterIsComplete` | bouncer/src/repo/core/handler/repo_database_handler_mongo.cpp:147-218 | a document that is asked for is selected, whatever the query |
| `Query.FilterIsSound` | bouncer/src/repo/core/handler/repo_database_handler_mongo.cpp:147-218 | without empty lists nothing else is selected |
| `Query.LabelsAreNames` | bouncer/src/repo/core/handler/repo_database_handler_mongo.cpp:206-214 | nested builders put exactly their names into the document, in order |
| `Query.ReadingsAgree` | bouncer/src/repo/core/handler/repo_database_handler_mongo.cpp:147-218 | with distinct names the two readings of a document agree in all nested documents |
| `BulkWriter.MongoWriteContext.Run` | bouncer/src/repo/core/handler/repo_database_handler_mongo.cpp:943-1038 | for every run of inserts, updates and flushes: executed operations followed by pending ones carry out what was submitted, in order, with binary data readable; after a final flush everything is executed |
| `BulkWriter.MongoWriteContext.ExecuteBulkWrite` | bouncer/src/repo/core/handler/repo_database_handler_mongo.cpp:1031-1038 | the guard skips only an empty bulk; the log is unchanged and nothing is pending |
| `BulkWriter.MongoWriteContext.CheckBulkWrite` | bouncer/src/repo/core/handler/repo_database_handler_mongo.cpp:1023-1029 | executes the bulk exactly when it exceeds 16 MiB; pending bytes are at most that after every call |
| `BulkWriter.MongoWriteContext.InsertDocument` | bouncer/src/repo/core/handler/repo_database_handler_mongo.cpp:975-992 | one operation is logged that reads back as the document, binary data included; the bulk is executed exactly when the size of the document takes it above 16 MiB |
| `BulkWriter.MongoWriteContext.UpdateDocument` | bouncer/src/repo/core/handler/repo_database_handler_mongo.cpp:994-1012 | the update is logged; filter and update document both count towards the 16 MiB |
| `BulkWriter.MongoWriteContext.Append` | bouncer/src/repo/core/handler/repo_database_handler_mongo.cpp:983-986 | the operation is appended to the log; the byte count stays the sum of what is pending |
| `BulkWriter.MongoWriteContext.Flush` | bouncer/src/repo/core/handler/repo_database_handler_mongo.cpp:1014-1018 | nothing is pending afterwards and the log is unchanged |
| `BulkWriter.InsertManyDocuments` | bouncer/src/repo/core/handler/repo_database_handler_mongo.cpp:710-728 | the batches hold the documents in order, readable with their binary data; all batches but the last are full, none is empty |
| `BulkWriter.FillBatch` | bouncer/src/repo/core/handler/repo_database_handler_mongo.cpp:714-722 | one batch reads back as its range of documents |
| `BulkWriter.Detach` | bouncer/src/repo/core/handler/repo_database_handler_mongo.cpp:716-720 | a document without its binary data and the blob store together read back as the document; only binary data that is not empty is stored |
| `Worker.SettledExactlyOnce` | tools/bouncer_worker/src/lib/queueHandler.js:72-90 | in every interleaving of deliveries: settled once and never twice; acknowledged exactly when one value was sent, refused exactly when none was |
| `Worker.RunKeeps` | tools/bouncer_worker/src/lib/queueHandler.js:72-90 | at most the prefetch count unsettled (zero meaning no limit), traces follow the handlers, and no message is lost or made up |
| `Worker.ExecuteTasks` | tools/bouncer_worker/src/lib/queueHandler.js:101-149 | takes at most nTasks, in the order in which they are offered, and a poll takes a message exactly when one is there; gives up exactly when a poll finds nothing and the time since the last activity exceeds the limit, which it did at no earlier poll in vain; never has two unsettled messages, ends with all settled, and terminates by tasks left, then waiting time left |
| `Worker.PolledOnce` | tools/bouncer_worker/src/lib/queueHandler.js:101-149 | one poll continues history, queue and clock as the queue and the outcome of its message say |
| `Worker.Handle` | tools/bouncer_worker/src/lib/queueHandler.js:113-136 | one message is taken, handled and settled before the next, and goes back to the queue exactly when it is refused |
| `Worker.ModelHandler` | tools/bouncer_worker/src/queues/modelQueueHandler.js:33-95 | one value-carrying reply when resolved, none when rejected: the code of the command when file check and command return, else the error of the first that throws, as it is or as 12 for zero; refused for an invalid licence or an undefined error |
| `Worker.DrawingHandler` | tools/bouncer_worker/src/queues/drawingQueueHandler.js:47-101 | the same, with the conversion in place of the file check, for PDF files only |
| `Worker.ClashHandler` | tools/bouncer_worker/src/queues/clashQueueHandler.js:33-94 | the same; an invalid licence is reported rather than retried, and only a missing configuration file or an undefined error leads to refusal after decoding |
| `Worker.AllActs` | tools/bouncer_worker/src/lib/queueHandler.js:82-88 | a finished delivery shows one settlement, of the right kind, and the values of its replies |
| `Worker.StepKeeps` | tools/bouncer_worker/src/lib/queueHandler.js:72-90 | arrival, delivery, reply and settlement each keep the invariant |

## Left out

- The hash table that stores truncated hashes in its buckets, beyond the selection of buckets in lookup and rehash; `mod_growth_policy`; range insertion, hints, erasure of ranges, copy and swap of whole tables, allocator plumbing and the map and set wrappers.
- The restoration of the old table when an exception interrupts a rehash by move (hopscotch_hash.h lines 1342-1365).
- Floating-point rounding everywhere: load factors, rounding modes and widening by one unit in the last place in the box transform, narrowing of vertices to floats, and rotations.
- IFC units, materials, metadata values, normals and texture coordinates; the meshes of one import differ only in faces and material and are one record here.
- SceneTree.IfcSerialiser.GetGroupNode: does not state one group per pair of parent and type, because the key is a sum and not injective.
- `Realloc` of a null pointer, which is `Malloc`; alignment of a user buffer, and who owns the base allocator.
- The capacity of arrays and objects in the document model, the 32-bit width of counts, 48-bit pointer packing, the reader, encodings and streams, raw numbers, and handlers that stop a visit early other than the event handler of `Sax`.
- The order of equal names in the multimap: a lookup may answer with any of them.
- The casts of numbers in the JSON parsers and the texts of their errors.
- Projections, updates other than their place in the write log, an empty list of alternatives (which the database refuses), dotted names, failures of the database in the middle of a bulk, and the layout of blob files.
- Connecting and reconnecting, logging, timers and process monitoring of the worker; the place at which a refused message is put back into the queue.
- Worker.ExecuteTasks: takes the polling interval to be positive, because with zero it need not terminate.
