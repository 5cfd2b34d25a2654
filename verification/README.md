# The request parser and its libraries: models and proofs

The HTTP server in this repository is built on two libraries in its tree: `extern/cc`, generic containers, and
`extern/klib`, containers and algorithms. This project models the server's request parser and the hardest parts of the
libraries in Dafny, and proves what they are for. Each module follows the source's own form: arrays, fields and nodes
that the source changes in place are changed in place by methods here, and every method is proved against an abstract
value (a map, a set, a suffix array, a tree, a set of blocks) or against a function of the old state. Facts that do not
depend on the heap are lemmas about sequences, maps and sets, and live in modules of their own.

| files | what they model |
|---|---|
| `QuadraticProbe`, `MapChains`, `CcMap`, `CcMapGrow`, `CcMapIterate` | `cc_map`, the Verstable hash table of `cc.h` |
| `TreeShape`, `TreeColours`, `TreeInsert`, `TreeErase`, `TreeEdit`, `OMap` | `cc_omap`, the red-black tree of `cc.h` |
| `SuffixOrder`, `InducedOrder`, `InducedSort` | stage III of the suffix sorter in `ksa.c` |
| `BoyerMoore` | the string search of `kstring.c` |
| `LinearProbe`, `Khashl` | the hash set of `khashl.h` |
| `FreeList`, `Kalloc` | the allocator `kalloc.c` |
| `KtFor`, `KtPipeline` | the loop and the pipeline of `kthread.c` |
| `Kexpr` | the expression parser and evaluator of `kexpr.c` |
| `KsonTree`, `Kson`, `KsonRoundTrip` | the parser and the formatter of `kson.c` |
| `Sha1Standard`, `Sha1Example`, `Sha1`, `ByteNumbers`, `S3Sign` | SHA-1, HMAC and the base64 signature of `kurl.c` |
| `HttpText`, `HttpParse`, `HttpFeed` | the request parser of the server, `src/http/http_parse_dfa.c` |
| `Wrappers`, `Pigeonhole` | an option type; counting facts that several modules use |

`dafny verify dfyconfig.toml` checks everything.

## The main results

**cc_map.** `CcMapGrow.Insert`, `CcMap.Header.Get` and `CcMap.Header.Erase` agree with an abstract map. The invariant
`Chained` is local to a bucket: each linked bucket has a displacement, its metadatum names the next bucket of its chain
at a strictly greater displacement, and no link skips a bucket of the chain, so that each home-flagged bucket starts a
chain of exactly the keys that belong there. The triangular probe visits every bucket of a power-of-two table within one
round, so a table of up to 1024 buckets refuses an insertion only when it is full. A failed eviction leaves one pair out
of its chain: `EvictionFails` says exactly when, and `MakeRehash` finds that pair again. If instead no larger table can
be allocated, the pair stays lost; `Insert` says exactly when that is so, and that it takes more than 1024 buckets. A
forward iteration that erases any of the elements it visits visits each element once, although an erasure can move a
pair into the current bucket.

**cc_omap.** `OMap.OMap.Insert`, `Get` and `Erase` agree with an abstract ordered map and keep a red-black search tree.
Each turn of the two fix-up loops is a function on trees (`InsertNext` for insertion) with a measure that falls. Erasing
a node with two children puts its successor, the same object, into its place; all other nodes stay the objects they
were, and the sentinel is in no `modifies` clause.

**ksa.** From the sorted leftmost S-type suffixes, stage III leaves the suffix array of the text, marks undone, if and
only if no two zeros of the text are adjacent. The documentation of `ksa.c` (lines 118-130) asks of a text with several
sentinels only that its last symbol is one; the text 1, 0, 0 meets that and is not sorted.

**kstring.** The linear-time suffix table and both shift tables are the ones their definitions ask for, no shift jumps
over an occurrence, and the search returns the leftmost occurrence or none.

**khashl.** Every key is found from its home slot without crossing a free one. Back-shift deletion keeps this, and so
does the resize that moves all keys within one array, each key kicking out the next; it terminates because every kick
clears a mark of the old table.

**kalloc.** The free list is one cycle in address order with a single wrap, free and live blocks tile the cores behind
their headers, no two free blocks touch, and their sizes and the headers add up to the capacity. The two panics of
`kfree` are never reached, and `kmalloc` asks for a core only when no free block is large enough, at most once.
`krealloc` keeps the contents of the block it moves and of all others.

**kthread.** For every schedule of atomic steps, `kt_for` calls the function once for each index by the time all threads
have left, no counter reaches n + T * (T + 2), and every step brings the end nearer. In `kt_pipeline` no two workers are
ever at work on the same step, each step sees the jobs in increasing order, a job passes the steps in order, and the
live worker with the least index is never blocked. No wake-up is lost: a sleeping worker is always blocked by a live
one. With the results of calls read off the actions of a run, no job is lost either: the first step is called for every
index given out, each later step for exactly the jobs for which the step before has returned data, and is given that
data; a worker leaves only with a job for which a step before the last has returned NULL; and once all have left, every
other job has been through every step. A pipeline of one step never ends.

**kexpr.** An expression in infix order, with the parentheses that precedence and associativity need, is parsed into its
postfix order exactly when no second or later argument of a call begins with a plus or minus sign; otherwise the parser
reports a wrong number of arguments, because a comma does not reset what decides between unary and binary signs.
Precedence is stated with the operators' names: of any two binary operators between three values the one of the earlier
group of C binds first. Evaluating the postfix order never underflows its stack and yields the value of the expression
by recursion, where an operator or a function with an implementation gets the values of its operands in the order in
which they are written. The parser's last check only sums up effects, so it also accepts tokens that no expression
prints, such as `( * ) v ( w )`; `AcceptedRuns` says for all accepted tokens exactly when evaluating them underflows.

**kson.** Every text of a tree is parsed into the tree, with its keys, quotes and order: whatever quotes its keys and
texts are written with, and whatever blanks and commas, or none, stand between its tokens, if quoted texts are properly
escaped and unquoted ones hold no `,`, `:`, `]`, `}` or line break but are followed by one. The formatter's text is one
of these. The error for a missing key is never reported: the later test for open brackets takes its place.

**kurl.** For every message below 2^32 bytes, written in any pieces, the sixteen-word circular schedule, the buffer and
the padding give the digest of FIPS 180-4, and the keyed hash is that of RFC 2104. Beyond 2^32 bytes the code's padding
is not the standard's: the length is counted modulo 2^32. The definitions give the published digest of "abc".

**The request parser.** A complete request fed in any chunks leaves the same context as in one piece, every feed before
the last asks for more, and the method, path, version, headers and body are those that the text was rendered from (RFC
9112, sections 2.1, 3 and 5). `ReadExactly` says for which requests: those with at most 98 headers whose headers
announce the body that they have. With more headers the parser fails: 99 header lines in one feed are refused by the
test for an overfull header list (lines 121-143), and with 100 or more it takes what follows the hundredth line for the
body. A request that announces chunks is never read, and a negative length stands for one of 2^63 bytes or more.

## Model

| member | source | states |
|---|---|---|
| `QuadraticProbe.QuadraticFormula` | extern/cc/include/cc.h:2900-2903 | the closed form (d * d + d) / 2 is the d-th triangular number, the sum of the steps 1 to d |
| `QuadraticProbe.ReduceIsRemainder` | extern/cc/include/cc.h:3042 | reducing by the capacity leaves the remainder modulo the capacity |
| `QuadraticProbe.ProbeNeverRepeats` | extern/cc/include/cc.h:2897-2903 | over one round of a power-of-two table two different displacements reach different buckets |
| `QuadraticProbe.ProbeReachesEveryBucket` | extern/cc/include/cc.h:2897-2903 | every bucket of a power-of-two table is reached by a displacement below the capacity |
| `MapChains.SamePlace` | extern/cc/include/cc.h:3056-3072 | two linked buckets of one chain at the same displacement are the same bucket |
| `MapChains.HomeFlag` | extern/cc/include/cc.h:3167-3169 | a bucket flagged as a home bucket holds a key that belongs there |
| `MapChains.Follow` | extern/cc/include/cc.h:3180-3225 | following a link towards a later bucket of the chain comes nearer to it and never passes it |
| `MapChains.StartChain` | extern/cc/include/cc.h:3171-3195 | putting a key into its own free or vacated home bucket starts a chain of one and keeps the others |
| `MapChains.LinkIn` | extern/cc/include/cc.h:3236-3252 | linking a bucket in behind the last one before its displacement keeps every chain complete and increasing |
| `MapChains.Unlink` | extern/cc/include/cc.h:3100-3112 | bending the link before a bucket past it takes that bucket, and only it, out of its chain |
| `MapChains.DropLost` | extern/cc/include/cc.h:3186-3192 | an unlinked bucket can be emptied without touching a chain |
| `MapChains.EndChain` | extern/cc/include/cc.h:3672-3680 | emptying a bucket that is the whole of its chain keeps the other chains |
| `CcMap.ProbeExhausted` | extern/cc/include/cc.h:3029-3050 | if the displacement limit stops the probe of a table of at most 1024 buckets, the table has no empty bucket |
| `CcMap.FullTable` | extern/cc/include/cc.h:3029-3050 | a table without an empty bucket holds as many keys as it has buckets |
| `CcMap.Header.FindFirstEmpty` | extern/cc/include/cc.h:3029-3050 | finds the first empty bucket along the probe, with its displacement, or none within the limit |
| `CcMap.Header.FindInsertLocationInChain` | extern/cc/include/cc.h:3056-3072 | finds the last bucket of the chain whose displacement is below the empty one |
| `CcMap.Header.Evict` | extern/cc/include/cc.h:3085-3134 | moves a foreign pair out of the bucket and keeps the map; on failure the pair stays in place, out of its chain |
| `CcMap.Header.InsertRaw` | extern/cc/include/cc.h:3149-3253 | inserts, replaces or keeps the pair as asked, or stores nothing because of the load limit or the displacement limit; a key is lost from its chain exactly if its eviction fails |
| `CcMap.Header.Reinsert` | extern/cc/include/cc.h:3262-3316 | inserts a key known to be absent, or fails within the displacement limit |
| `CcMap.Header.Get` | extern/cc/include/cc.h:3486-3521 | the bucket of the key, holding its element, if and only if the key is in the map |
| `CcMap.Header.EraseRaw` | extern/cc/include/cc.h:3647-3747 | removes exactly the pair of the bucket, and tells a forward iteration whether to move on |
| `CcMap.Header.EraseInner` | extern/cc/include/cc.h:3709-3746 | the last pair of the chain takes the place of the erased one |
| `CcMap.Header.Erase` | extern/cc/include/cc.h:3775-3812 | removes the key and tells whether it was there; a key that a failed insertion has left out of its chain is not found and stays |
| `CcMapGrow.CopyPairs` | extern/cc/include/cc.h:3346-3370 | reinserts every pair of the table, linked or not, into the copy, or stops at one that does not fit |
| `CcMapGrow.MakeRehash` | extern/cc/include/cc.h:3324-3380 | a copy with the same map, all keys linked, at the last capacity asked for, which is the given one or a doubling of it; none exactly if that capacity cannot be allocated |
| `CcMapGrow.Insert` | extern/cc/include/cc.h:3430-3484 | the map with the pair inserted, replaced or kept as asked; none only if a larger capacity cannot be allocated: the stored pairs are then the same, and one of them has been left out of its chain exactly if the load limit let the last attempt go on and its eviction failed, which needs more than 1024 buckets |
| `CcMapIterate.LeapForward` | extern/cc/include/cc.h:3541-3555 | the first occupied bucket at or after the given one, or the end, reading four metadata at a time |
| `CcMapIterate.EraseItr` | extern/cc/include/cc.h:3753-3770 | erases the pair of the bucket and returns where the iteration goes on, which no unvisited pair lies before |
| `CcMapIterate.IterateErasing` | extern/cc/include/cc.h:3541-3770 | a forward iteration that erases any visited elements visits each element present at the start exactly once and leaves the others |
| `TreeShape.RotateKeepsShape` | extern/cc/include/cc.h:4395-4418 | a rotation keeps the search order, the agreement of parents and children, and the set of nodes |
| `TreeColours.RepaintRotate` | extern/cc/include/cc.h:4446-4448 | recolouring and rotating keeps equal black heights if the new top counts what the old one did |
| `TreeInsert.RedUncleStep` | extern/cc/include/cc.h:4431-4437 | a red uncle: recolouring moves the one red-red pair up to the grandparent |
| `TreeInsert.InnerStep` | extern/cc/include/cc.h:4440-4444 | an inner grandchild becomes an outer one by one rotation |
| `TreeInsert.OuterStep` | extern/cc/include/cc.h:4446-4448 | recolouring and rotating an outer grandchild ends the loop |
| `TreeInsert.InsertNextKeeps` | extern/cc/include/cc.h:4426-4450 | a turn of the post-insert loop keeps its invariant and brings the end nearer |
| `TreeInsert.InsertDone` | extern/cc/include/cc.h:4452 | painting the root black when the loop ends leaves a red-black tree |
| `TreeErase.RedSiblingStep` | extern/cc/include/cc.h:4619-4625 | a red sibling: after one rotation the sibling is black and the shortage is where it was |
| `TreeErase.BlackSiblingStep` | extern/cc/include/cc.h:4627-4632 | a black sibling with black children: the shortage moves up to the parent |
| `TreeErase.InnerNephewStep` | extern/cc/include/cc.h:4635-4641 | a red nearer nephew: one rotation makes the farther one red |
| `TreeErase.OuterNephewStep` | extern/cc/include/cc.h:4643-4647 | a red farther nephew: one rotation repairs the shortage |
| `TreeErase.EraseDone` | extern/cc/include/cc.h:4651-4652 | painting the last node black when the loop ends leaves a red-black tree |
| `TreeEdit.SearchStep` | extern/cc/include/cc.h:4496-4522 | going down by the comparison keeps every node with the key below, on the sought key's side of all ancestors |
| `TreeEdit.AddLeafState` | extern/cc/include/cc.h:4526-4541 | a red leaf at the place the search found makes a tree that the post-insert loop starts from |
| `TreeEdit.DetachBlackNode` | extern/cc/include/cc.h:4678-4690 | unlinking a black node leaves a tree whose paths through its place lack one black node |
| `TreeEdit.DetachRed` | extern/cc/include/cc.h:4678-4685 | unlinking a red node leaves a red-black tree |
| `TreeEdit.SuccessorFound` | extern/cc/include/cc.h:4669-4674 | going right and then left to the end finds the node with the least key above the erased one |
| `TreeEdit.SupplantStep` | extern/cc/include/cc.h:4696-4714 | putting a node with an adjacent key into another's place keeps the red-black tree |
| `TreeEdit.KeysDiffer` | extern/cc/include/cc.h:4496-4522 | different nodes have different keys |
| `OMap.OMap.Rotate` | extern/cc/include/cc.h:4395-4418 | changes the links in place to those of the rotated tree and keeps the search tree |
| `OMap.OMap.FixInsert` | extern/cc/include/cc.h:4421-4453 | the post-insert loop ends with a red-black tree of the same nodes |
| `OMap.OMap.Search` | extern/cc/include/cc.h:4487-4522 | finds the node with the key, or the place where it belongs |
| `OMap.OMap.Insert` | extern/cc/include/cc.h:4461-4547 | the ordered map with the pair inserted, replaced or kept as asked; none only without memory; other nodes stay |
| `OMap.OMap.Get` | extern/cc/include/cc.h:4550-4570 | the node of the key, with its value, if and only if the key is in the map |
| `OMap.OMap.FixErase` | extern/cc/include/cc.h:4608-4653 | the post-erase loop ends with a red-black tree of the same nodes |
| `OMap.OMap.ToDetach` | extern/cc/include/cc.h:4666-4674 | the node itself exactly if one of its children is the sentinel, and otherwise the node with the least key above its own |
| `OMap.OMap.EraseRaw` | extern/cc/include/cc.h:4656-4723 | removes exactly this node; all others stay the objects they were, and the sentinel is never written |
| `OMap.OMap.Erase` | extern/cc/include/cc.h:4727-4745 | removes the key from the map and tells whether it was there |
| `OMap.OMap.SizeOfContents` | extern/cc/include/cc.h:4256-4263 | the size field counts the pairs of the map |
| `SuffixOrder.LessNext` | extern/klib/ksa.c:83-116 | suffixes with equal first symbols compare as the suffixes after them |
| `SuffixOrder.LBeforeS` | extern/klib/ksa.c:83-116 | within a bucket L-type suffixes come before S-type ones |
| `SuffixOrder.TypeOfPrevious` | extern/klib/ksa.c:91-113 | one comparison of symbols tells the type of the preceding suffix |
| `SuffixOrder.RankSurjective` | extern/klib/ksa.c:83-116 | every slot of the array is the rank of some suffix |
| `InducedOrder.LCursorAt` | extern/klib/ksa.c:91-101 | the cursor of a bucket stands at the slot of the suffix about to be placed |
| `InducedOrder.LPlacedInTime` | extern/klib/ksa.c:94-101 | an L-type suffix has been placed before its own slot is read |
| `InducedOrder.LDoneSReady` | extern/klib/ksa.c:91-113 | the first pass leaves what the second one starts from |
| `InducedOrder.SDone` | extern/klib/ksa.c:102-115 | the two passes leave the suffix array exactly when no two sentinels are adjacent |
| `InducedOrder.SDoneMissing` | extern/klib/ksa.c:102-115 | the second of two adjacent sentinels is missing from the array |
| `InducedSort.GetCounts` | extern/klib/ksa.c:57-70 | counts the symbols of each bucket |
| `InducedSort.GetBuckets` | extern/klib/ksa.c:75-80 | the ends or the starts of the buckets, also in place |
| `InducedSort.InduceL` | extern/klib/ksa.c:88-101 | the left-to-right pass places every L-type suffix at its rank |
| `InducedSort.InduceS` | extern/klib/ksa.c:102-115 | the right-to-left pass places every S-type suffix at its rank and undoes all marks |
| `InducedSort.InduceSA` | extern/klib/ksa.c:83-116 | from the LMS suffixes at their bucket ends, the array is the suffix array exactly when no two zeros are adjacent |
| `InducedSort.PlaceLMS` | extern/klib/ksa.c:203-208 | moves the sorted LMS suffixes to the ends of their buckets, within the array |
| `InducedSort.StageThree` | extern/klib/ksa.c:194-210 | from the sorted LMS suffixes, the array is the suffix array exactly when no two zeros are adjacent |
| `InducedSort.AdjacentZerosExample` | extern/klib/ksa.c:194-210 | the text 1, 0, 0 with its sorted list [1] meets the documented precondition and has adjacent zeros |
| `BoyerMoore.Suffixes` | extern/klib/kstring.c:145-160 | each entry is the length of the longest common suffix of the pattern and its prefix, by definition |
| `BoyerMoore.BadCharacters` | extern/klib/kstring.c:141-144 | each entry is the distance from the end to the last such byte before the last position, by definition |
| `BoyerMoore.CompatibleShifts` | extern/klib/kstring.c:161-171 | a shift is compatible with a mismatch exactly if the suffix length it lands on says so |
| `BoyerMoore.GoodSuffixTable` | extern/klib/kstring.c:161-171 | what the two loops store is the least compatible shift |
| `BoyerMoore.GoodSuffixes` | extern/klib/kstring.c:161-171 | each entry is the least compatible shift, by definition |
| `BoyerMoore.NothingSkipped` | extern/klib/kstring.c:187-191 | no shift below either table entry leads to an occurrence |
| `BoyerMoore.Search` | extern/klib/kstring.c:176-195 | the leftmost occurrence of the pattern, or none exactly if there is none; prepared tables can be passed in |
| `LinearProbe.NotBeyondFree` | extern/klib/include/klib/khashl.h:153-157 | a search that stops at a free slot has shown that the key is absent |
| `LinearProbe.PutKeeps` | extern/klib/include/klib/khashl.h:224-227 | storing a new key at the first free slot after its home keeps every key findable |
| `LinearProbe.HoleMove` | extern/klib/include/klib/khashl.h:243-244 | moving a key that was looked for across the hole leaves only a hole at its old slot |
| `LinearProbe.HoleSkip` | extern/klib/include/klib/khashl.h:242-244 | a key that is found before the hole can stay |
| `LinearProbe.HoleEnd` | extern/klib/include/klib/khashl.h:241 | at a free slot nothing is cut off any more |
| `LinearProbe.CrossesHole` | extern/klib/include/klib/khashl.h:243 | the code's test is true exactly if the slot to fill lies between the key's home and its slot |
| `LinearProbe.StoredSize` | extern/klib/include/klib/khashl.h:227 | the marks count the keys |
| `Khashl.BucketBound` | extern/klib/include/klib/khashl.h:107 | the bucket of a hash lies below the capacity |
| `Khashl.UpperBits` | extern/klib/include/klib/khashl.h:107 | the bucket is the number that the upper bits of the product with 2^32 / phi form |
| `Khashl.ThreeQuarters` | extern/klib/include/klib/khashl.h:77 | a table takes keys up to three quarters of its slots |
| `Khashl.BitsFor` | extern/klib/include/klib/khashl.h:166-169 | the least power of two, four at least, that is not below the request |
| `Khashl.FindFree` | extern/klib/include/klib/khashl.h:189 | the first slot from home that is free in the new table |
| `Khashl.KickOut` | extern/klib/include/klib/khashl.h:186-198 | a key moves to its new slot, and whatever it kicks out after it; afterwards all keys are stored again, each once |
| `Khashl.MoveAll` | extern/klib/include/klib/khashl.h:181-199 | all keys are at slots of the new table, findable from their new homes, and no old mark is left |
| `Khashl.DoublingMakesRoom` | extern/klib/include/klib/khashl.h:212-216 | asking for one slot more than there are leaves room for a key |
| `Khashl.Table.Get` | extern/klib/include/klib/khashl.h:147-160 | the slot of the key, or the capacity exactly if the key is absent |
| `Khashl.Table.Put` | extern/klib/include/klib/khashl.h:208-233 | the set with the key; absent tells whether it was new, and is -1 exactly if the table is at its load limit and the next larger one cannot be allocated |
| `Khashl.Table.Resize` | extern/klib/include/klib/khashl.h:163-205 | the same set at the new capacity, growing or shrinking, unless the request is too small or memory is lacking |
| `Khashl.Table.BackShift` | extern/klib/include/klib/khashl.h:239-245 | later keys move back until the slot left over can be freed |
| `Khashl.Table.Delete` | extern/klib/include/klib/khashl.h:235-250 | the set without the key of the slot |
| `Khashl.Table.CountIsSize` | extern/klib/include/klib/khashl.h:227 | the count field is the number of keys |
| `FreeList.GapFound` | extern/klib/kalloc.c:110-111 | the condition of the search is true exactly between a free block and its successor in the cycle |
| `FreeList.AheadShrinks` | extern/klib/kalloc.c:110-111 | each step of the search leaves fewer free blocks ahead of the place |
| `FreeList.MergeTiled` | extern/klib/kalloc.c:112-125 | merging two touching blocks keeps the cores tiled and the sum of the sizes |
| `FreeList.SplitTiled` | extern/klib/kalloc.c:144-146 | splitting a block keeps the cores tiled and the sum of the sizes |
| `FreeList.FreeRight` | extern/klib/kalloc.c:112-114 | a freed block that touches its successor absorbs it |
| `FreeList.FreeNoRight` | extern/klib/kalloc.c:115-117 | a freed block that does not touch its successor joins the cycle before it |
| `FreeList.FreeLeft` | extern/klib/kalloc.c:119-125 | a freed block that its predecessor touches is absorbed by it |
| `FreeList.AddCore` | extern/klib/kalloc.c:73-76 | a new core is tiled by its header and one block |
| `Kalloc.CoreHolds` | extern/klib/kalloc.c:69 | the units of a new core are the least multiple of the least core size that holds the request and the header |
| `Kalloc.UnitsHold` | extern/klib/kalloc.c:136 | the units of 16 bytes of a block are the least that hold the size word of 8 bytes and the bytes |
| `Kalloc.UserInUnits` | extern/klib/kalloc.c:147-149 | the bytes of a block lie in its units, behind the size word |
| `Kalloc.Kmem.Free` | extern/klib/kalloc.c:80-126 | the block leaves the live ones, the arena stays tiled and coalesced, other live blocks keep their sizes, and neither panic is reached |
| `Kalloc.Kmem.MoreCore` | extern/klib/kalloc.c:65-78 | a core more, whose units are free, at the head of the list |
| `Kalloc.Kmem.Malloc` | extern/klib/kalloc.c:128-155 | a new live block with room for the bytes, disjoint from all others; a core is added only if no free block was large enough; the search ends |
| `Kalloc.Kmem.Realloc` | extern/klib/kalloc.c:168-185 | a live block with room for the bytes, the old one if it has room; it holds what the old one held, and all other live blocks keep their sizes and contents |
| `Kalloc.Kmem.LiveApart` | extern/klib/kalloc.c:128-155 | two live blocks have no unit in common |
| `Kalloc.Kmem.HeadersApart` | extern/klib/kalloc.c:112-125 | no header of the free list lies within a live block |
| `Kalloc.Kmem.Stat` | extern/klib/kalloc.c:197-216 | the available bytes, the live ones and the headers add up to the capacity |
| `KtFor.TakeOnce` | extern/klib/kthread.c:30-32 | a fetch-and-add issues exactly one new index |
| `KtFor.StepKeeps` | extern/klib/kthread.c:24-47 | every atomic step keeps the invariant |
| `KtFor.ExactlyOnce` | extern/klib/kthread.c:36-65 | when all threads have left, each index of the loop has been called exactly once |
| `KtFor.NeverTwice` | extern/klib/kthread.c:36-65 | at any time no index has been called twice |
| `KtFor.CountersBounded` | extern/klib/kthread.c:24-47 | no counter ever reaches n + T * (T + 2) |
| `KtFor.StepProgress` | extern/klib/kthread.c:36-47 | every step of a thread that has not left lowers a bound on the steps to come |
| `KtFor.Sequential` | extern/klib/kthread.c:62-63 | without threads the indices are called in order |
| `KtPipeline.StepKeeps` | extern/klib/kthread.c:195-225 | both critical sections, waiting on the condition variable and waking up keep the invariant |
| `KtPipeline.OneWorkerPerStep` | extern/klib/kthread.c:200-213 | no two workers are at work on the same step |
| `KtPipeline.JobsInOrder` | extern/klib/kthread.c:200-221 | each step is called for jobs with increasing indices |
| `KtPipeline.IndicesUnique` | extern/klib/kthread.c:221 | no two workers hold the same index |
| `KtPipeline.LeastNeverBlocked` | extern/klib/kthread.c:203-211 | the live worker with the least index is never blocked |
| `KtPipeline.NeverStuck` | extern/klib/kthread.c:195-225 | as long as a worker has not left, one that is not asleep moves on by its next action, without a spurious wake-up |
| `KtPipeline.NoLostWakeup` | extern/klib/kthread.c:209-222 | in every reachable state a worker asleep on the condition variable is blocked by one that has not left: no broadcast is missed |
| `KtPipeline.StepsInOrder` | extern/klib/kthread.c:219-221 | a job comes to a step only after all steps before |
| `KtPipeline.WorkerCount` | extern/klib/kthread.c:235-248 | there is a worker for each thread asked for, and at least one |
| `KtPipeline.EveryJobStarts` | extern/klib/kthread.c:216-221 | at any time the indices for which the first step has been called, with those held by workers that wait for it, are exactly the indices given out |
| `KtPipeline.DataGoesOn` | extern/klib/kthread.c:216-220 | at any time a later step has been called, or is waited for, for exactly those jobs for which the step before has returned data |
| `KtPipeline.DataHandedOver` | extern/klib/kthread.c:216 | a call at a later step is given what the step before returned for its job, which is not NULL |
| `KtPipeline.LeavesOnNull` | extern/klib/kthread.c:220 | the jobs held by workers that have left are exactly those for which a step before the last has returned NULL |
| `KtPipeline.OneStepNeverEnds` | extern/klib/kthread.c:220 | the workers of a pipeline of one step never leave |
| `KtPipeline.AllCompleted` | extern/klib/kthread.c:195-225 | once all workers have left, each job for which no step returned NULL has been through every step |
| `Kexpr.TableHolds` | extern/klib/kexpr.c:64-78 | the levels and the associativity of the operators are those of the table |
| `Kexpr.LevelIsGroup` | extern/klib/kexpr.c:64-78 | the operators of each precedence group of C, named one by one, have the level of the group; the unary ones and the power operator associate to the right |
| `Kexpr.SignsOf` | extern/klib/kexpr.c:214-222 | plus and minus are the signs of two operators each, every other operator has a sign of its own |
| `Kexpr.TwoOperators` | extern/klib/kexpr.c:310-319 | of any two binary operators between three values the one of the earlier group binds first, in one group the left one, but for the power operator |
| `Kexpr.PopPending` | extern/klib/kexpr.c:312-317 | an arriving operator moves exactly the tighter pending operators to the output |
| `Kexpr.FeedExpr` | extern/klib/kexpr.c:270-324 | reading an expression leaves its postfix order in the output and among the pending operators |
| `Kexpr.ParseOfPrint` | extern/klib/kexpr.c:254-352 | a well-parenthesized expression without signed later arguments is parsed into its postfix order |
| `Kexpr.ParseOfParenthesized` | extern/klib/kexpr.c:254-352 | so is every such expression tree, written with the needed parentheses |
| `Kexpr.NoneAdded` | extern/klib/kexpr.c:310-319 | parentheses are added only where an expression needs them |
| `Kexpr.ParsesExactly` | extern/klib/kexpr.c:254-352 | the parser accepts exactly the expressions without a signed later argument and reports the others as having a wrong number of arguments |
| `Kexpr.SignedArgumentExample` | extern/klib/kexpr.c:286-300 | the call f(v, -w) is well parenthesized and has a signed later argument |
| `Kexpr.Parentheses` | extern/klib/kexpr.c:275-333 | for any tokens: a right parenthesis is reported as extra only if it comes before its left one, a left one only if it is never closed, and what passes both tests is balanced |
| `Kexpr.BalanceOfPostfix` | extern/klib/kexpr.c:335-343 | postfix order leaves one value, so the final check passes |
| `Kexpr.Parse` | extern/klib/kexpr.c:254-352 | the loop over the tokens computes what the functions above describe, errors included |
| `Kexpr.MachineRuns` | extern/klib/kexpr.c:377-393 | executing the postfix order of an expression pushes its value, on any stack and before any code |
| `Kexpr.ParsedExecutable` | extern/klib/kexpr.c:254-352 | whatever tokens the parser accepts, its output holds no parentheses and no functions without arguments, and its effects sum up to one value |
| `Kexpr.MachineSupplied` | extern/klib/kexpr.c:377-393 | code runs through exactly if each element finds the values it takes, and leaves as many as its effects sum up to |
| `Kexpr.AcceptedRuns` | extern/klib/kexpr.c:335-343 | for any tokens the parser accepts, evaluation underflows exactly if some prefix of the output leaves fewer values than the next element takes, and otherwise leaves one value |
| `Kexpr.MisplacedOperatorExample` | extern/klib/kexpr.c:335-343 | ( * ) v ( w ) is accepted and underflows |
| `Kexpr.PostfixRuns` | extern/klib/kexpr.c:377-399 | the postfix order of an expression is supplied with values and leaves its value |
| `Kexpr.OperatorValues` | extern/klib/kexpr.c:381-393 | operators get the value of the left operand first |
| `Kexpr.CallValues` | extern/klib/kexpr.c:381-393 | functions with an implementation for one argument or two get the values of their arguments in order; any other call has the value of its first argument |
| `Kexpr.UnknownCalls` | extern/klib/kexpr.c:371-375 | a function is reported as unknown exactly if some call of the expression has no implementation for its arguments |
| `Kexpr.Eval` | extern/klib/kexpr.c:366-399 | the value that any supplied code leaves on the stack, and whether a function is unknown; the stack never underflows or overflows |
| `Kexpr.Evaluate` | extern/klib/kexpr.c:254-399 | from the tokens of an expression to its value: what its top operator or function makes of the values below, in their order |
| `HttpText.LengthReadBack` | src/http/http_types.c:309-328 | a length written in decimal digits is read back |
| `HttpText.IntegerRead` | src/http/http_types.c:309-328 | a number behind blanks and a sign is read as the nearest value of 64 bits, whatever follows its digits |
| `HttpText.NoInteger` | src/http/http_types.c:309-328 | without a digit there is no number |
| `HttpText.MethodNamed` | src/http/http_types.c:59-69 | a text is matched with GET, HEAD, POST or PUT exactly if it is that word, and otherwise with no known method |
| `HttpText.VersionNamed` | src/http/http_types.c:71-100 | a text is matched with a version exactly if it is HTTP/1.0 or HTTP/1.1, or begins with HTTP/2 or HTTP/3 |
| `HttpText.FindCrlfPrefix` | src/http/http_parse_dfa.c:361-375 | a line end once seen stays where it is; one not seen is not yet in what has been posted |
| `HttpParse.HeaderLinePrefix` | src/http/http_parse_dfa.c:298-334 | a header line within the first part of a text is parsed alike in the whole text |
| `HttpParse.FeedInPlace` | src/http/http_parse_dfa.c:90-202 | a feed that asks for more leaves cur <= next_line <= the length of the post |
| `HttpParse.FeedSplit` | src/http/http_parse_dfa.c:90-202 | if the first part of a text leaves the parser wanting more, feeding the rest ends in the context and outcome of feeding the whole at once |
| `HttpParse.PartWaits` | src/http/http_parse_dfa.c:90-202 | a proper part of a complete request asks for more |
| `HttpParse.AnyChunks` | src/http/http_parse_dfa.c:90-202 | a complete request in any chunks leaves the context that it leaves in one piece, and every feed before the last asks for more |
| `HttpParse.NinetyNineLines` | src/http/http_parse_dfa.c:118-143 | exactly 99 header lines in one feed are refused |
| `HttpParse.RenderedIsRead` | src/http/http_parse_dfa.c:90-202 | the method, path, version, headers and body are those that the request text was rendered from |
| `HttpParse.ReadExactly` | src/http/http_parse_dfa.c:90-202 | fed in one piece, a rendered request is read back exactly if it has at most 98 headers and they announce the body that it has |
| `HttpParse.NinetyNineHeadersExample` | src/http/http_parse_dfa.c:118-143 | a readable request with 99 headers |
| `HttpParse.OneWordLine` | src/http/http_parse_dfa.c:247-256 | a request line without a space leaves the method and the version unknown |
| `HttpParse.TwoWordLine` | src/http/http_parse_dfa.c:270-278 | a request line with one space gives a method only |
| `HttpParse.NoColon` | src/http/http_parse_dfa.c:303-307 | a header line without a colon is passed over |
| `HttpParse.TightHeader` | src/http/http_parse_dfa.c:314-317 | the space behind the colon may be missing |
| `HttpParse.ChunksAreRead` | src/http/http_parse_dfa.c:90-202 | a rendered request with at most 98 headers is read back from any chunks, every feed before the last asking for more |
| `HttpParse.NegativeLength` | src/http/http_parse_dfa.c:154-167 | a negative Content-Length never ends in success: the feed asks for more or fails an assertion, whatever follows |
| `HttpFeed.Parser.UpdateToNextCrlf` | src/http/http_parse_dfa.c:361-375 | moves to the next line, or changes nothing if none has ended |
| `HttpFeed.Parser.ParseRequestLine` | src/http/http_parse_dfa.c:239-296 | sets the method, path and version of the request line, as far as its spaces are found |
| `HttpFeed.Parser.ParseHeaderLine` | src/http/http_parse_dfa.c:298-334 | adds the header of the line and what it says of the body |
| `HttpFeed.Parser.ReadHeaders` | src/http/http_parse_dfa.c:118-153 | the loop over the header lines and what follows it |
| `HttpFeed.Parser.Feed` | src/http/http_parse_dfa.c:90-202 | the text is appended, and the context and the outcome are those of the function that the results above are about |
| `KsonTree.OneTree` | extern/klib/kson.c:13-109 | a node of the array is the root of at most one tree |
| `KsonTree.NodesRepresent` | extern/klib/kson.c:13-109 | nodes in preorder, with the indices of their children, stand for the tree |
| `Kson.FindMarkIn` | extern/klib/kson.c:53 | the topmost place of a mark in the stack |
| `Kson.ParseCore` | extern/klib/kson.c:13-109 | the nodes, the error and the length read, as the function that the results below are about; inputs on which the source reads outside its text, stack or nodes are told apart |
| `Kson.ErrorsReported` | extern/klib/kson.c:54-100 | no text is reported as lacking a key, since the test for open brackets comes later and takes its place; an extra right bracket is reported only behind a single value |
| `KsonRoundTrip.ScanClean` | extern/klib/kson.c:86-91 | a text with properly escaped stop characters is scanned to its end |
| `KsonRoundTrip.StringRead` | extern/klib/kson.c:70-92 | a sound string is read into the node meant for it, with its quotes |
| `KsonRoundTrip.CloseRead` | extern/klib/kson.c:51-65 | the closing bracket of a tree makes its node, and ends the parse at the root |
| `KsonRoundTrip.GapPassed` | extern/klib/kson.c:41-43 | blanks and commas between tokens change nothing |
| `KsonRoundTrip.TreeRead` | extern/klib/kson.c:31-93 | a tree written in any way is read into its nodes in preorder, from any state that awaits a value |
| `KsonRoundTrip.AnyText` | extern/klib/kson.c:31-103 | every text of a tree, with any quotes that its texts and keys allow and any blanks and commas or none between its tokens, is parsed without error into nodes that stand for the tree |
| `KsonRoundTrip.AnyTextDeterminesTree` | extern/klib/kson.c:31-103 | no text is a text of two trees |
| `KsonRoundTrip.Unclosed` | extern/klib/kson.c:100 | without its last bracket a tree is refused |
| `KsonRoundTrip.LoneRight` | extern/klib/kson.c:54-57 | a bracket behind a lone value is reported as extra |
| `KsonRoundTrip.BareRight` | extern/klib/kson.c:54-100 | a right bracket before any value is reported as an extra left one |
| `KsonRoundTrip.CompactExample` | extern/klib/kson.c:90 | the compact text [1,2] is read as its two leaves |
| `KsonRoundTrip.FormatExample` | extern/klib/kson.c:158-190 | the layout of the formatter: a line and two more blanks for each level, nothing between empty brackets |
| `KsonRoundTrip.RoundTrip` | extern/klib/kson.c:158-190 | what the formatter writes of a sound tree is parsed without error into nodes that stand for the same tree, keys, quotes and order included |
| `KsonRoundTrip.TextDeterminesTree` | extern/klib/kson.c:158-190 | two sound trees with the same text are the same tree |
| `Sha1Standard.Rotations` | extern/klib/kurl.c:325 | each rotation moves every bit by its number of places, modulo 32 |
| `Sha1Standard.MaskTurnsOver` | extern/klib/kurl.c:400 | masking a byte turns over exactly the bits of the mask |
| `Sha1Example.DigestOfAbc` | extern/klib/kurl.c:317-383 | by the definitions that the results below are about, the digest of "abc" is the one that FIPS 180 publishes |
| `Sha1.LaneReplaced` | extern/klib/kurl.c:347 | writing one byte of a word changes that byte only |
| `Sha1.CircularNext` | extern/klib/kurl.c:331-334 | the word that takes the place of the one sixteen turns older is the next word of the schedule of section 6.1.2 of FIPS 180-4 |
| `Sha1.TurnIsRound` | extern/klib/kurl.c:335-340 | a turn of the loop is a round of the standard |
| `Sha1.BufferedBlock` | extern/klib/kurl.c:347 | a full buffer read as words is the block of its bytes |
| `Sha1.Sha1Info.HashBlock` | extern/klib/kurl.c:327-343 | the state becomes that of section 6.1.2 of FIPS 180-4 after one more block |
| `Sha1.Sha1Info.AddByte` | extern/klib/kurl.c:345-352 | state and buffer stay the hash of all bytes added so far |
| `Sha1.Sha1Info.Write` | extern/klib/kurl.c:354-363 | the data is appended to what has been hashed, and counted |
| `Sha1.PaddingExact` | extern/klib/kurl.c:368-377 | of the messages the standard admits, exactly those below 2^32 bytes are padded as section 5.1.1 says |
| `Sha1.Sha1Info.Final` | extern/klib/kurl.c:365-383 | the digest of the message, by FIPS 180-4 if it is below 2^32 bytes |
| `Sha1.Sha1Info.InitHmac` | extern/klib/kurl.c:388-400 | the key, hashed if longer than a block, is masked and hashed as the first block |
| `Sha1.Sha1Info.FinalHmac` | extern/klib/kurl.c:402-410 | the keyed hash of section 2 of RFC 2104 |
| `Sha1.DigestOf` | extern/klib/kurl.c:317-383 | a message below 2^32 bytes written in any pieces has the digest of FIPS 180-4 |
| `Sha1.HmacOf` | extern/klib/kurl.c:388-410 | so has a text with a key the keyed hash of RFC 2104 |
| `S3Sign.CharOfNumber` | extern/klib/kurl.c:421 | six bits are written as the letter that RFC 4648 gives for their number |
| `S3Sign.FoobaExample` | extern/klib/kurl.c:428-435 | a test vector of RFC 4648 whose last group has two bytes |
| `S3Sign.Base64At` | extern/klib/kurl.c:428-435 | each character of the base64 text of RFC 4648, section 4, by its place |
| `S3Sign.SplitChar` | extern/klib/kurl.c:429-432 | the bits of two neighbouring bytes that the loop joins are the next six bits of the group |
| `S3Sign.Encode` | extern/klib/kurl.c:428-435 | the loop writes the base64 text of the digest |
| `S3Sign.Sign` | extern/klib/kurl.c:419-436 | the base64 text of the keyed hash |

## Left out

- cc_map: reserve, shrink, clear, clone, the deprecated backward iteration, and destructors; they repeat the same loops or free what is stored.
- cc_map and cc_omap: the layout of elements and keys in one allocation, the choice of functions by type macros, and user comparators; keys are compared with `==`, and the keys of cc_omap are integers in their order.
- cc_map: the packing of a metadatum into 16 bits; a metadatum is a record of its three parts with the same ranges.
- cc_map and khashl: allocation; a parameter bounds what can be allocated, and an allocation beyond it fails.
- cc_omap: iteration in both directions, bounded first and last, clear and clone; the placeholder header; the two-element array of children is two fields, `left` and `right`.
- ksa: stages I and II (naming and the recursive call) and the Burrows-Wheeler output; stage III is proved from their documented result, the sorted LMS suffixes.
- khashl: the packing of the used marks into 32-bit words, the ensemble of tables, and maps with cached hashes; an array of length zero stands for the NULL pointers of a table without storage.
- kalloc: destroying an arena, and use without an arena; the bytes of callers are kept apart from the headers, which is sound since no header of the free list lies in a live block (`HeadersApart`); addresses are in header units, the list of cores is a sequence, and the unit before the base block and the one after it belong to the arena's own record.
- kthread: the function that is called; its calls are recorded, and what it returns in `kt_pipeline` is part of an action; the thread pool; weak memory: counters are read one at a time in an interleaving.
- kexpr: characters; tokens are given, with plus and minus still ambiguous. Numbers, strings and variables are one type of values, and what operators and functions compute is a parameter, so the flag for unassigned variables is not modelled.
- BoyerMoore.Search: the 32-bit range of positions is not modelled; an empty pattern is excluded, since the source reads before its table then.
- HttpFeed.Parser.Feed: chunked bodies, whose states are empty in the source, and requests glued together, whose branch lies behind an assertion that excludes it; parsers of the other header values and the table of header names, which are parameters; the lifetime of views, which are offsets here; allocation failure; the handling of a connection header (lines 439-446), whose result is ignored.
- kson: queries by path, key and index, and allocation; a string is the text before its terminating zero.
- Sha1: big-endian machines; the rest of `kurl.c`.
- From the libraries the B-tree, the AVL tree and the remaining files, and from the server the string type, sockets, threads, configuration and resources: not modelled.
