# A verified model of the maemmidb bitmap indexes and transactions

go-maemmidb is an in-memory database with multi-version concurrency. A write transaction works on persistent
structures and publishes a new version with one store; everything that was handed out before keeps its meaning.
This project models the part of it where that is hardest to see, and proves it:

- **The compressed bitmap** (`internal/bitmap`), a 64-ary trie over 256-bit chunks whose children are found by
  population count. A writer changes the nodes of its own epoch in place and copies all others. `BitmapWriter`,
  `BitmapOps`, `BitmapAlgebra`, `BitmapQuery` and `BitmapIterator` keep the nodes as heap objects with the code's
  fields (`epoch`, `count`, `height`, `words`, `present`), and the child array of each node as a heap object of its
  own. Ghost fields say what a node holds (`ids`), what its array has in it (`kids`) and what it is made of (`repr`).
  `BitmapWorld` runs any number of writers and sets in any order.
- **The row vector** (`internal/pvec`), the same ownership scheme on a 32-ary trie with wrapping `used` counters, its
  arrays of values and children again heap objects: `VecNode`, `VecQuery`, `VecWriter`.
- **The radix trees** are maps behind handles (`Juuri`): until it is frozen, a handle taken from a tree transaction
  follows the later writes of that transaction, and a frozen one is never written again. `IndexTrees` has the tree
  transactions of a table and the code's rule about which handles must be frozen before they escape.
- **Row bookkeeping and bitmap indexes** (`bitmap_index.go`): row ids, the map from primary keys to ids, the vector from
  ids to rows, and the set of ids under every value. `RowModel` says what it means that they agree with the table;
  `SetStore`, `VecStore` and `RowBook` are the code on the persistent structures; `RowQuery` has the filtering scan that
  queries must agree with.
- **Transactions** (`txn.go`, `memdb.go`): `OrdinaryIndex` (the comparison of old and new keys by position),
  `TableModel` and `PrefixModel` (what the writes and bulk deletes make of a table), `TableTxn` (Insert, Delete,
  DeleteAll, DeletePrefix), `TableOutcomes` (what a write leads to is determined by the table), `Database` (begin,
  commit, abort, snapshot, queries, row sets), `ChangeLog` (the collapsed change list), `RowRuns`, `TableRuns`,
  `DatabasePlain` and `DatabaseRuns` (whole runs).
- **The line of a table's bookkeeping** (`RowLine`, `TableLines`): the states and moves that led from the empty table to
  a version. Every write adds to it, and what it says of a version holds also where table and bookkeeping have come
  apart.
- **Three algorithms that refine a simpler form**: the compound key product without recursion (`CompoundKeys`) and its
  exact sizing (`CompoundSizes`), the order of encoded keys (`OrderedKeys`), and the name index built by a counting
  sort (`NameIndexes`).

How the layers hang together. A node's `Valid()` is the shape invariant of its subtree; `Canon` adds that the root is
as low as the ids allow. `Sealed(nodes, e, last)` is the ownership invariant: no node outside epoch e leads to one of
epoch e, and no epoch lies in the future. `AllBacked(nodes)` says that each node has a child array to itself.
`Owned(n, e)` is what a writer of epoch e may change below n, nodes and arrays, and it is what the `modifies` clauses
name. A set, vector or tree that has been handed out consists of nodes no live epoch owns and of frozen tree handles
(`Kept()`), so no later `modifies` clause reaches it.

The writes of a transaction are stated for any table (`TableTxn.Txn.Usable`), also one whose row bookkeeping or indexes
no longer agree with it; that they keep agreement, and what a bulk delete comes to under it, are lemmas about their
outcomes (`TableModel.InsertKeepsAgreed`, `TableModel.DeleteKeepsAgreed`, `PrefixModel.PrefixOutcome`,
`PrefixModel.ListedDeleted`, `PrefixModel.OrderlyAgrees`).

`Database.Lasts` says of everything handed out so far (versions, row sets with their ids, trees behind iterators) that
it still says what it said, and depends on nothing but frozen nodes and trees. It is part of `Database.Valid()`, which
every operation keeps, also one that panics half way through; so a row set can be read or combined with another after
any number of later writes, commits and aborts. `DatabaseRuns.Session` keeps all that comes out of a database. Whatever
it does, what it has kept are the same objects afterwards, and they say what a machine over plain values
(`DatabasePlain.Next`) records for them. In that machine nothing that has been handed out ever changes
(`HandedOutForever`), row sets can be combined exactly if they are of one state of the table or of states without rows,
what is published only ever adds to its line (`RunLined`), and in a run in which every DeletePrefix is orderly each row
set is exactly what a scan finds (`RunTidy`) and each row keeps its id from version to version (`IdsForLife`).

A `Panic` result stands for the code's panics: a write to a row that has no row id, the end of the row ids, and a prefix
that cannot be cut off. On a table in agreement Insert has only the second, Delete and DeleteAll have none, and
DeletePrefix comes to the first if it lists a row a second time; see below.

Conditions. Eight things the code does not do for all inputs are stated exactly:

- `Len` reads a uint32 counter: it is right if and only if the set is not the whole id space (`BitmapQuery.Len`,
  `BitmapQuery.FullSetCount`).
- The row vector drops a tree whose counter is zero: `Set` gives the updated map unless all 2^32 indexes would be
  set, when it gives the empty vector (`VecWriter.Writer.Set`, `VecShapes.UsedZero`, `VecShapes.LastIndexEmpties`).
  The row bookkeeping never gets there, as ids end at 2^32 - 2.
- An ordinary index agrees with the table after an insert if and only if no other row has one of the new row's keys
  (`OrdinaryIndex.ReplacedAgrees`). Prefix-free values guarantee this for every non-unique index
  (`OrdinaryIndex.PrefixFreeOwn`); `OrdinaryIndex.SharedKeyBreaks` is a table where it fails without them.
- The row ids run out if and only if a row is added to a table of 2^32 - 1 rows (`RowRuns.OutOfIdsIff`): the code
  panics before the last id of the uint32 range is given out.
- DeletePrefix on a table in agreement that has a bitmap index panics if and only if it comes to a row that it has
  unhooked before, under another key, before any indexer fails, or if it has unhooked rows and no key of the index
  starts with the raw prefix (`PrefixModel.PrefixOutcome`). A row is listed twice if and only if it has two keys under
  the prefix (`PrefixModel.TwiceIff`); `PrefixModel.TwicePanics` is such a table.
- Where it goes through, DeletePrefix leaves what deleting the listed rows one by one leaves if and only if the raw
  prefix covers exactly the keys of those rows (`PrefixModel.PrunedIff`). With several keys per row it may not:
  `PrefixModel.KeyLeftBehind` is a table in which a key of a deleted row stays. With at most one key per row, the prefix
  that is searched, and indexers that do not fail, the two always leave the same (`PrefixModel.PrefixIsDeleteAll`).
- A DeletePrefix that an indexer refuses leaves the table as it was if and only if no row has been unhooked before and
  the refused row has no key, is not there under it, or is neither logged nor taken out of the id index
  (`PrefixModel.RefusedUntouched`). So the id index can change under an equal row vector, and row sets from before and
  after still combine: `DatabasePlain.RefusedTakesOut` says exactly when. A table that agrees with its bookkeeping is
  the only one that does (`Database.SameBooksSamePrimary`), so from there on the two disagree.
- Row sets of different states of a table do not always panic when they are combined, as the documentation has it: they
  go through if and only if the two states have the same stamp, that is, nothing has been written in between that had
  an effect, or neither has any rows (`DatabaseRuns.Matched`, `DatabasePlain.OneStateCombines`).

Machine words are modelled as sets of bit positions. `MachineWords` connects the two: each of the code's word
operations on `bv64` is the set operation used here.

## Model

| member | source | states |
|---|---|---|
| Words.KidInserted | internal/bitmap/bitmap.go:198-206 | Opening a gap at the rank of a new slot gives that slot the new child and leaves every other slot with the child it had. |
| Words.KidRemoved | internal/bitmap/bitmap.go:261-272 | Closing the gap of a removed slot leaves every other slot with its child. |
| Words.TrailingZeros | internal/bitmap/bitmap.go:113-119 | The lowest set bit; 64 exactly for the zero word. |
| MachineWords.WordOps | internal/bitmap/ops.go:128-213 | On 64-bit words, bitwise and, or and and-not are intersection, union and difference of bit positions. |
| MachineWords.WordBits | internal/bitmap/bitmap.go:183-272 | Setting and clearing one bit of a word, and the population count below a bit, are adding, removing and ranking a position. |
| MachineWords.LowestDropped | internal/bitmap/bitmap.go:308-333 | `b & (b-1)` removes exactly the lowest set bit. |
| MachineWords.SameWord | internal/bitmap/ops.go:133-141 | Words with the same set bits are equal, so comparing chunks is comparing sets. |
| IdSpace.HighRange | internal/bitmap/bitmap.go:68-71 | The ids that share their high bits above a level are one contiguous range of that level's size. |
| IdSpace.TopCovers | internal/bitmap/bitmap.go:33-41 | Four directory levels cover every uint32 id. |
| Shapes.ChunkUnique | internal/bitmap/bitmap_test.go:42-87 | The four words of a chunk and the ids it holds determine each other. |
| Shapes.DirUpdate | internal/bitmap/bitmap.go:208-215 | Replacing the child of a slot changes the ids of a node by exactly that child's ids; an empty slot's new ids are new to the node. |
| Shapes.CountIsOne | internal/bitmap/bitmap.go:250-253 | The wrapping count is 1 exactly when the node holds that one id, which is what `clear` tests. |
| BitmapNode.NodeFacts | internal/bitmap/bitmap_test.go:42-87 | The shape invariant: not empty, count equal to the number of ids, height at most 4, as many children as presence bits, all ids with the node's high bits. |
| BitmapNode.KidFacts | internal/bitmap/bitmap_test.go:42-87 | The child at the rank of a slot is a valid subtree one level lower that holds exactly the node's ids with that slot. |
| BitmapNode.ArraysApart | internal/bitmap/bitmap.go:150-161 | Two live nodes never share a child array: what is written in one is seen through no other. |
| BitmapQuery.Len | internal/bitmap/bitmap.go:73-79 | The number of ids, if and only if the set is not all 2^32 ids, for which it is 0. |
| BitmapQuery.FullSetCount | internal/bitmap/bitmap.go:73-79 | The set of all ids has a root whose count is 0. |
| BitmapQuery.Contains | internal/bitmap/bitmap.go:88-103 | True exactly for the members of the set. |
| BitmapQuery.ChunkNotEmpty | internal/bitmap/bitmap.go:116-121 | Some word of a chunk is not zero: the "empty chunk" panic is unreachable. |
| BitmapQuery.Min | internal/bitmap/bitmap.go:105-122 | The least id of the set, or none exactly for the empty set. |
| BitmapWriter.Writer.Own | internal/bitmap/bitmap.go:140-161 | The node itself if it carries the writer's epoch, else a fresh copy with a fresh child array; the epoch is drawn first and is never 0. |
| BitmapWriter.Writer.SetIn | internal/bitmap/bitmap.go:183-216 | In a subtree: the id is added, the shape kept, nothing but owned nodes changed; reports whether it was absent; without a change nothing is written. |
| BitmapWriter.Writer.Branch | internal/bitmap/bitmap.go:218-229 | A valid, wholly owned new subtree that holds exactly one id. |
| BitmapWriter.Writer.Cover | internal/bitmap/bitmap.go:173-177 | The raised root holds the same ids and covers the new one; nothing is allocated if it was covered. |
| BitmapWriter.Writer.Set | internal/bitmap/bitmap.go:163-181 | Adds the id and reports whether it was absent; the result has canonical shape; only nodes of the writer's epoch are written, and the result stays sealed. |
| BitmapWriter.Writer.ClearIn | internal/bitmap/bitmap.go:248-273 | In a subtree: the id is removed, and nil results exactly if it was the only one. |
| BitmapWriter.Writer.Clear | internal/bitmap/bitmap.go:231-246 | Removes the id and reports whether it was present; the result is canonical, so levels that became unnecessary are gone. |
| BitmapBuilder.Builder.Add | internal/bitmap/ops.go:99-106 | Appending above all slots so far keeps children and presence bits aligned by rank and adds exactly the child's ids. |
| BitmapBuilder.Builder.Is | internal/bitmap/ops.go:108-119 | Equality child for child, and then the same ids. |
| BitmapBuilder.Builder.Build | internal/bitmap/ops.go:121-126 | A valid node of epoch 0 with the collected ids; nil exactly if there are none. |
| BitmapOps.AndNodes | internal/bitmap/ops.go:128-161 | The intersection of two subtrees; the first operand itself whenever it is a subset of the second; operands untouched. |
| BitmapOps.OrNodes | internal/bitmap/ops.go:163-198 | The union of two subtrees; the first operand itself whenever it contains the second. |
| BitmapOps.AndNotNodes | internal/bitmap/ops.go:200-230 | The difference of two subtrees; the first operand itself whenever the two are disjoint. |
| BitmapAlgebra.Canonical | internal/bitmap/ops.go:74-84 | The same ids at the least height that holds them; a canonical set is returned as it is. |
| BitmapAlgebra.Level | internal/bitmap/ops.go:63-72 | Both operands at one height with unchanged ids, new roots in epoch 0. |
| BitmapAlgebra.And | internal/bitmap/ops.go:13-33 | For operands of any two heights: exactly the intersection, canonical, from operand nodes and new nodes of epoch 0; a itself if it is a subset of b. |
| BitmapAlgebra.Or | internal/bitmap/ops.go:35-45 | For operands of any two heights: exactly the union, canonical; a itself if it contains b. |
| BitmapAlgebra.AndNot | internal/bitmap/ops.go:47-61 | For operands of any two heights: exactly the difference, canonical; a itself if the two are disjoint. |
| BitmapUnique.CanonicalForm | internal/bitmap/ops.go:74-84 | Two sets hold the same ids if and only if they are the same trie in every field but the epochs, height included. |
| BitmapIterator.Iterator.Iterate | internal/bitmap/bitmap.go:292-306 | All ids of the set are still to come. |
| BitmapIterator.Iterator.Next | internal/bitmap/bitmap.go:328-356 | Yields the least id still to come and uses it up; reports the end exactly when none is left, and stays there. |
| BitmapIterator.Iterator.Descend | internal/bitmap/bitmap.go:308-326 | From the top frame, at the height that belongs to its depth, down to the next chunk; the path never overflows its four frames, and what is left outside the chunk shrinks. |
| BitmapIterator.Collect | internal/bitmap/bitmap_test.go:42-87 | Draining an iterator lists every id once in strictly ascending order, as many as there are ids, starting with the least. |
| BitmapWorld.World.Change | internal/bitmap/bitmap.go:124-181 | When one writer changes one of its sets, every other set, of this or another writer or kept, stays what it is. |
| BitmapWorld.World.Do | internal/bitmap/bitmap.go:124-138 | One step of any holder (new writer, empty set, adopt, change, freeze and publish, combine) does to the sets what it does to plain sets of ids. |
| BitmapWorld.World.Run | internal/bitmap/bitmap.go:124-138 | Over any sequence of such steps the sets are those of the plain machine, and every set kept at the start is the same object with the same ids at the end. |
| BitmapWorld.KeptForever | internal/bitmap/bitmap.go:135-138 | In the plain machine a kept set never changes, whatever follows. |
| VecShapes.UsedThrough | internal/pvec/pvec.go:206-217 | Adding the child's new count and subtracting its old one modulo 2^32 keeps a directory node's count exact. |
| VecShapes.UsedZero | internal/pvec/pvec.go:199-201 | The counter is zero exactly when nothing is set or all 2^32 indexes are. |
| VecShapes.LastIndexEmpties | internal/pvec/pvec.go:218-220 | Setting the one index that was unset in an otherwise full vector brings the counter to zero. |
| VecShapes.NotFull | internal/pvec/pvec.go:188-222 | A subtree below the top level never has 2^32 entries, so only the root can be dropped wrongly. |
| VecQuery.Leaf | internal/pvec/pvec.go:92-102 | The leaf answers for all 16 indexes of its range; no leaf means that none of them is set. |
| VecQuery.Get | internal/pvec/pvec.go:84-90 | The value at an index of the map the vector stands for, nil if unset. |
| VecQuery.Cursor.Get | internal/pvec/pvec.go:116-125 | The same value as Get, in whatever order the indexes come. |
| VecNode.ArraysApart | internal/pvec/pvec.go:146-160 | Two live nodes never share an array of values or children. |
| VecWriter.Writer.Own | internal/pvec/pvec.go:139-160 | The node itself if it is owned, else an owned copy that holds the same, in fresh arrays. |
| VecWriter.Writer.SetIn | internal/pvec/pvec.go:188-222 | In a subtree: exactly one index changes, the counters stay exact, nil results exactly when the counter becomes zero. |
| VecWriter.Writer.Set | internal/pvec/pvec.go:162-186 | Sets or unsets one index of the map; emptied, it is the zero vector; unsetting what is unset returns the same vector; only owned nodes are written, and a write puts the vector under an owned root. |
| SetStore.Sets.Change | bitmap_index.go:301-346 | One set of the store gains or loses one id, in place where it is owned, all others keep theirs; a set that becomes empty leaves the tree. |
| Juuri.Txn.Write | docs/design.md:33-38 | A write changes the current tree in place if it has not been frozen, so that its handles follow, and otherwise makes a new one; no frozen tree is in reach of it. |
| Juuri.Txn.Freeze | docs/design.md:35-38 | From here on the tree is one of those that never change. |
| SetStore.Sets.Freeze | bitmap_index.go:192-200 | From here on all sets of the store consist of nodes that the writer can no longer change. |
| SetStore.Sets.FreezeTree | txn.go:212-227 | The tree of the sets is handed out: it will not follow later writes, and says what the store says now. |
| VecStore.Rows.Set | bitmap_index.go:298-298 | One row changes; vectors handed out do not, because the change shows under another root. |
| RowModel.IdsKept | bitmap_index.go:271-298 | A write keeps used and free ids a partition of the ids below next and the keys a bijection onto the used ones; a new row's id is not in use. |
| RowModel.ScanMoved | bitmap_index.go:301-346 | What a scan for a value finds after a write differs from before exactly by what moving the row's id between the sets does. |
| RowModel.WriteAgrees | bitmap_index.go:264-347 | A write keeps ids, vector and every value's set in agreement with the table. |
| RowModel.EmptyAgrees | bitmap_index.go:156-169 | The empty bookkeeping agrees with the empty table. |
| RowBook.Book.MoveValues | bitmap_index.go:301-346 | Old values that are not new lose the id, new ones that are not old gain it, values in both are untouched, also when values repeat; no empty set remains. |
| RowBook.Book.Take | bitmap_index.go:285-295 | The least free id, or the next one; fails exactly if no id is free and the last of the range would be next. |
| RowBook.Book.GiveBack | bitmap_index.go:278-282 | The id of a deleted row leaves the ids in use and joins the free ones; no other set changes. |
| RowBook.Book.Number | bitmap_index.go:264-297 | A known key keeps its id, a new one gets the least free or the next; both panics exactly as the code has them. |
| RowBook.Book.Apply | bitmap_index.go:264-347 | The whole effect of a write on the bookkeeping, and exactly when each of the two panics would happen; nothing that was handed out is in reach. |
| RowBook.Book.FreezeRows | bitmap_index.go:189-200 | Both writers and the id tree are frozen: sets, vector and id tree as they are now are out of reach of later writes. |
| RowBook.Book.Freeze | txn.go:1135-1151 | The version handed out says what the transaction says now, in nodes and trees out of reach of later writes. |
| RowQuery.QueryIsScan | bitmap_index.go:475-546 | For every combination of Where, prefix, AllRows, And, Or and AndNot, a row's id is in the result exactly if a scan of the table takes the row. |
| RowQuery.WhereFinds | bitmap_index.go:475-522 | The rows with a value: those whose indexer gives a list of values that has it in some place. |
| RowQuery.PrefixFinds | bitmap_index.go:523-528 | The rows under a prefix: those with a value that is at least as long and begins with exactly the bytes of the prefix. |
| RowQuery.AllFound | bitmap_index.go:531-546 | All rows: the ids of the keys of the table. |
| RowQuery.QueryRows | bitmap_index.go:405-433 | The rows a query yields through the row vector are the matching rows of the table, each under its own id. |
| RowQuery.QueryCount | bitmap_index.go:399-399 | A query has as many ids as a scan takes rows. |
| RowQuery.NextIsPeak | bitmap_index.go:285-295 | A write moves next to the greater of what it was and the number of rows there now are. |
| RowRuns.RunAgrees | bitmap_index.go:264-347 | After any run of writes on an empty table the bookkeeping and all bitmap indexes agree with the table, and next is the largest number of rows it ever had. |
| RowRuns.RunKeepsIds | bitmap_index.go:271-277 | A row keeps its id for as long as it stays in the table, whatever is written. |
| RowRuns.OutOfIdsIff | bitmap_index.go:289-294 | The ids run out exactly when a row is added to a table of 2^32 - 1 rows. |
| RowLine.TracedLoose | bitmap_index.go:264-347 | In every state that any sequence of writes leads to, also of a row that the table does not have: ids below next are used or free and not both, used ones are those with a row, no two keys share one, and next is the largest number of rows there was. |
| RowLine.TakesKeepsId | bitmap_index.go:271-277 | A key gets another id only by a write that takes its row for new. |
| RowLine.LineKeepsIds | bitmap_index.go:271-277 | Where no row was put in as new while its key had an id, a key keeps its id for as long as it is there. |
| RowLine.NeatIds | bitmap_index.go:288-300 | There, as many ids are in use as there are keys. |
| RowLine.InsertionOrder | bitmap_index.go:401-404 | As long as no row has been deleted, row ids, and so the rows of any row set, are in the order of insertion. |
| TableLines.PrefixFollows | txn.go:512-579 | DeletePrefix, refused or not, on any table: the bookkeeping goes on along its line, and no row gets a second id. |
| TableModel.InsertKeepsAgreed | txn.go:316-427 | On a table in agreement with its bookkeeping an insert leaves it so, refused or not. |
| TableModel.DeleteKeepsAgreed | txn.go:466-510 | So does a delete, and it never panics there. |
| TableModel.InsertRefusedIff | txn.go:316-384 | An insert is refused if and only if the row has no primary key, or some ordinary or bitmap index fails on it, has no value of it although it must, or fails on the row that would be replaced. |
| TableModel.DeleteRefusedIff | txn.go:429-464 | A delete finds nothing exactly if the key is not there, and of a row that is there it is refused if and only if some ordinary or bitmap index fails on it. |
| OrdinaryIndex.Replace | txn.go:393-414 | In place on the tree transaction, the comparison by position has the effect of deleting all old keys and then inserting all new ones, for repeated and reordered values too. |
| OrdinaryIndex.ReplacedAgrees | txn.go:393-414 | After an insert the index holds exactly the keys of the rows if and only if no other row has one of the new row's keys; after a delete always. |
| OrdinaryIndex.PrefixFreeOwn | schema_compile.go:200-239 | With prefix-free values a non-unique index gives different rows different keys. |
| OrdinaryIndex.SharedKeyBreaks | schema_compile.go:200-239 | Two rows whose value and primary key run together to the same bytes: the index no longer agrees with the table. |
| IndexTrees.Trees.Readable | txn.go:205-227 | The tree of an index as the transaction sees it; one that escapes is frozen first, so that it keeps its contents. |
| IndexTrees.Trees.KeptApart | txn.go:208-211 | No tree that has been handed out is in reach of the transaction's writes. |
| IndexTrees.Trees.Freeze | txn.go:1141-1151 | All trees of the table, each with its contents, and each frozen. |
| TableTxn.BuildKeys | txn.go:346-384 | All keys of the new and the replaced row in every ordinary index, or failure exactly if an index fails on one of the two, or has no value of the new one although it must. |
| TableTxn.BuildValues | bitmap_index.go:225-253 | All values of the new and the replaced row in every bitmap index, or failure exactly if an index fails on one of the two, or has no value of the new one although it must. |
| TableTxn.Txn.ApplyBitmaps | bitmap_index.go:264-347 | The bookkeeping takes a write in, whatever table it is of; panics exactly on a row that was there and has no id, or when out of ids; reaches nothing handed out. |
| TableTxn.Txn.Insert | txn.go:316-427 | Refused (no key, missing value, failing indexer at any index): the table is exactly as before. Otherwise the row, all indexes, the bookkeeping and the change list take it in. Panics exactly when the row it replaces has no row id, or when out of ids. |
| TableTxn.Txn.Store | txn.go:339-391 | The primary write comes first and is undone exactly if a secondary index refuses, an existing row put back and a new one taken out. |
| TableTxn.Txn.Unindex | txn.go:429-464 | A row leaves every index but one; if an indexer fails none is touched; panics exactly if the row has no row id. |
| TableTxn.Txn.Delete | txn.go:466-510 | No such row, or a failing indexer: the table is exactly as before. Otherwise the row is gone from every index and the change list says so. Panics exactly if it has no row id. |
| TableTxn.Txn.DeleteAll | txn.go:581-615 | Deletes one row after the other and stops at the first that cannot be deleted, with what was done by then and its number; nothing handed out is in reach. |
| TableTxn.Txn.DeleteEntries | txn.go:588-614 | The same for the rows that an index, whatever is in it, lists under a prefix, by an iterator that does not follow the deletes. |
| TableTxn.Txn.DeletePrefix | txn.go:512-579 | For any index, whatever is in it: the rows listed leave all other indexes one after the other, with the exact table in between; the first that cannot stops the call, by a failing indexer or a panic, with exactly what is left then; otherwise the raw prefix is cut off this index. Nothing handed out is in reach, whatever the outcome. |
| TableTxn.Txn.ListRows | txn.go:525-535 | What the iterator of any index lists: the keys under the prefix, each once, in ascending order, from a tree that does not follow the deletion. |
| PrefixModel.ListsUnique | txn.go:525-535 | What is listed, and in which order, is determined by what the index has. |
| TableOutcomes.InsertDetermined | txn.go:316-427 | An insert takes tables that are the same to the same outcome, and to tables that are the same. |
| TableOutcomes.ListDetermined | txn.go:582-616 | DeleteAll stops at the same row with the same outcome, and leaves the same table and change list. |
| TableOutcomes.PrefixDetermined | txn.go:512-579 | So does DeletePrefix: the rows it lists, the one it stops at, the outcome, what is left of the table, and the change list follow from the table alone. |
| PrefixModel.WithoutAllTrees | txn.go:429-464 | Without some rows every index has lost exactly the keys of those rows, however often a row is named. |
| PrefixModel.PrunedIff | txn.go:566-577 | DeletePrefix leaves what deleting each listed row leaves if and only if the raw prefix covers exactly the keys of those rows. |
| PrefixModel.CoversIff | txn.go:569-571 | If the raw prefix is the one that was searched, it covers exactly those keys if and only if no listed row has a key without the prefix. |
| PrefixModel.TwiceIff | txn.go:537-561 | A row is listed twice if and only if some row has two keys with the prefix. |
| PrefixModel.TwicePanics | bitmap_index.go:264-270 | A row with two keys under the prefix, in a table with a bitmap index: the second entry is the panic, and no indexer fails. |
| PrefixModel.KeyLeftBehind | txn.go:566-577 | A row with one key under the prefix and one not: the other key stays in the index, and its row is gone. |
| PrefixModel.GoesIff | txn.go:602-615 | After some deletes of a table in agreement a further one goes through exactly if its row was there at the start, is none of those, and is not refused. |
| PrefixModel.HalfStep | txn.go:551-564 | Unhooking a row from all indexes but one, also a second time without bitmap indexes, leads from the table without some rows to the table without one more. |
| PrefixModel.PrefixOutcome | txn.go:512-579 | Through an index in agreement every outcome can be told beforehand: it stops exactly at the first row that is refused or, with bitmap indexes, listed before; if nothing stops it, it panics exactly if the raw prefix matches nothing; otherwise the listed rows are gone from all indexes but one, and the raw prefix is cut off that. |
| PrefixModel.ListedDeleted | txn.go:588-614 | DeleteAll of the rows that an index in agreement lists goes through if and only if none is listed twice and no indexer fails, and then leaves the table without exactly those rows. |
| PrefixModel.DeletedFirstGo | txn.go:602-615 | On a table in agreement every row that DeleteAll has deleted was there, was not listed before, and was not refused. |
| PrefixModel.PrefixIsDeleteAll | txn.go:512-516 | With at most one key per row, the prefix that is searched, and indexers that do not fail, DeletePrefix and DeleteAll of the same rows both go through and leave the same table, the one without those rows. |
| PrefixModel.RefusedUntouched | txn.go:543-564 | A row that DeletePrefix refuses leaves the table as it is exactly if it has no key, is not there, or is neither logged nor taken out of the id index. |
| PrefixModel.PrefixRefusedIff | txn.go:429-464 | What an indexer stops DeletePrefix at: a row on which some bitmap index fails, or some ordinary one other than the one it goes through. |
| PrefixModel.OrderlyAgrees | txn.go:512-579 | What a caller can check beforehand so that DeletePrefix leaves a table in agreement: the index agrees, the id index is cut at the prefix that is searched, and no indexer fails on a row. |
| PrefixModel.IdPrefixOrderly | txn.go:512-579 | Through the id index it is enough that the prefix that is searched is cut off and no indexer fails on a row. |
| TableRuns.RunInOrder | txn.go:316-510 | After any run of Insert and Delete without a panic, refused ones included, a non-unique index with prefix-free values holds exactly the keys of the rows. |
| TableRuns.RunNetEffect | txn.go:956-1032 | After any run of tracked writes without a panic the collapsed change list, replayed on the table at the start, gives the table now; no object occurs twice and no entry says nothing. |
| RowSets.Combine | bitmap_index.go:365-396 | Goes through exactly if the sets are of one table and have the same root of the row vector, and then yields intersection, union or difference; otherwise it is the panic. |
| RowSets.AscendIs | bitmap_index.go:401-404 | There is only one list of a set's ids in ascending order, so the order of the rows is determined. |
| RowSets.Rows | bitmap_index.go:401-433 | Exactly what the vector has under the ids of the set, in ascending order of the ids. |
| Database.Database.Begin | memdb.go:106-116 | A write transaction starts from the published version with an empty change list. |
| Database.Database.Insert | txn.go:316-427 | As on the table; every version, row set and iterator tree handed out before still says what it said. The row vector is the same if nothing was written, and otherwise none that has been handed out, unless empty. |
| Database.Database.Delete | txn.go:466-510 | As on the table; everything handed out before still says what it said; the row vector as for Insert. |
| Database.Database.DeleteAll | txn.go:581-615 | As on the table; everything handed out before still says what it said, wherever the call stopped; the row vector as for Insert. |
| Database.Database.DeletePrefix | txn.go:512-579 | As on the table, for any index and any table, so that a transaction goes on after a failing indexer; everything handed out before still says what it said, also after a panic; the row vector changes if and only if a row has been unhooked. |
| Database.Database.Read | txn.go:205-227 | The tree of an index for an iterator; it is kept among what later writes do not change. |
| Database.Database.Snapshot | txn.go:1121-1153 | A version with exactly the transaction's uncommitted state, in frozen trees and nodes; it is kept among what later writes do not change. |
| Database.Database.Commit | txn.go:259-314 | The published version becomes the transaction's state, and the writer is released. |
| Database.Database.Abort | txn.go:229-254 | The published version and all that has been handed out stay, the changes are gone, and the writer is released; also after a write that has panicked half way through. |
| Database.Database.Ask | bitmap_index.go:486-546 | A value, a prefix or all rows: the row set has the ids that the bookkeeping of the transaction gives, and is kept with the query and that state. |
| Database.Database.AskIn | bitmap_index.go:486-546 | The same on a version handed out before, whatever has been written since. |
| Database.Database.RowsOf | bitmap_index.go:401-433 | Any row set handed out so far yields exactly what its row vector had under its ids, in ascending order of the ids; if it answers a query on a table in agreement, exactly the rows that a scan takes, as many as those; for a prefix query, those with a value that begins with the bytes of the prefix. |
| Database.Database.Combine | bitmap_index.go:349-396 | For any two row sets handed out so far: goes through exactly if they have the same row vector; then both are of states with the same bookkeeping, or without rows, and the ids are combined. |
| Database.Database.CombineOther | bitmap_index.go:365-369 | A row set is never combined with one of another table, whatever their vectors, also when both are empty. |
| Database.Database.SameRootSame | bitmap_index.go:357-369 | Row sets with the same row vector are of states with the same bookkeeping and the same line to it, or both of states without rows. |
| Database.LastsMore | bitmap_index.go:349-353 | What has been handed out depends on frozen nodes and trees only, and more of those do not change it. |
| Database.CombinedScanned | bitmap_index.go:371-396 | Combining the answers to two queries on one state, or on two tables in agreement without rows, answers the combined query. |
| Database.SameBooksSamePrimary | bitmap_index.go:365-369 | With the same row bookkeeping a second table agrees if and only if it is the same table: only one that has come apart from its bookkeeping can change under an equal row vector. |
| DatabaseRuns.Session.Do | txn.go:259-615 | Every operation, in any state, does what the machine over plain values does, and the row sets, versions and iterator trees kept so far are the same objects afterwards. |
| DatabaseRuns.Session.Run | docs/design.md:33-38 | Any sequence of operations, on old and new row sets and versions, is a run of that machine, and what was kept at its start is kept at its end. |
| DatabasePlain.HandedOutForever | bitmap_index.go:349-353 | In every run, what is recorded of what has been handed out at one moment is the same at every later one. |
| DatabasePlain.OneStateCombines | bitmap_index.go:354-357 | Two row sets that a write transaction has asked for with no effective write in between can be combined at any later time; the result has the ids of the combined query in that state. Refused and empty writes may be in between. |
| DatabasePlain.PublishedByCommit | txn.go:229-254 | In every run nothing but a commit changes what is published. |
| DatabasePlain.UnwrittenKeeps | txn.go:341-391 | A write that finds nothing to do, or is refused before it has changed a row, leaves the row vector and the bookkeeping as they are. |
| DatabasePlain.StampKeptIff | txn.go:341-391 | No other write that goes through does: the state keeps its stamp if and only if nothing was found to write, or the first row was refused, which for DeletePrefix is the row under the least key listed. |
| DatabasePlain.RefusedTakesOut | txn.go:543-564 | The id index of a transaction changes under an equal row vector exactly when DeletePrefix through another index is refused at its first row and that row is there. |
| DatabasePlain.RunLined | bitmap_index.go:207-224 | In every run the line of what is published next goes on from the line of what is published. |
| DatabasePlain.RunPeaks | bitmap_index.go:289-294 | In every version, answer and transaction of every run, aborted ones and disagreeing tables included, next is the largest number of rows in the states that led to it. |
| DatabasePlain.RunTidy | bitmap_index_test.go:170-255 | In a run in which every DeletePrefix is orderly all versions, answers and transactions agree with their bookkeeping, and every row set, combined ones included, has exactly the ids that a scan would collect. |
| DatabasePlain.IdsForLife | bitmap_index.go:271-277 | In such a run a row keeps its id from one published version to any later one if its key was there all the way, also in the states in between that were not published. |
| DatabaseRuns.Matched | bitmap_index.go:354-369 | Two row sets have the same row vector exactly if they are of one state of the table, or of states without rows. |
| DatabaseRuns.Session.TreeHolds | txn.go:205-227 | After any run the tree of an iterator still has what it was opened on. |
| DatabaseRuns.Session.VersionHolds | txn.go:1121-1153 | After any run every tree of a version, and its row bookkeeping, say what they said when it was made. |
| DatabaseRuns.Session.Rows | bitmap_index.go:401-433 | After any run every row set still yields exactly what its table had under its ids, in ascending order; for one that answers its query on a table in agreement, exactly the scan of that table; for a prefix query, the rows with a value that begins with the bytes of the prefix. |
| ChangeLog.NetEffect | txn.go:960-970 | Collapsing a log of real writes keeps the net effect, has one entry per object with its value at the start, and none that says nothing. |
| ChangeLog.EntryIff | txn.go:1010-1028 | A row that has been changed has one entry, from what it was at the start to what it is now, and has it unless it was not there at the start and is not there now; no other row has any. |
| ChangeLog.MidwayCollapse | txn.go:1029-1031 | Collapsing midway and going on comes to the same as collapsing once at the end. |
| ChangeLog.PickedCollapsed | txn.go:1004-1028 | Picking last entries with their first before value is the same as merging one change at a time, in the order of the last writes. |
| ChangeLog.CollapsedInOrder | txn.go:960-970 | The entries come in the order of the last writes of their objects, and each ends with what that write left. |
| ChangeLog.HasDuplicate | txn.go:1037-1071 | Never misses a repeated object, whatever the hash; exact for up to 8 changes. |
| ChangeLog.Tracker.Changes | txn.go:971-1032 | Returns and stores the collapsed list on every path, the two early returns included. |
| ChangeLog.InsertTracked | txn.go:418-425 | The entry an insert appends keeps the log one of real writes that leads to the table. |
| ChangeLog.DeleteTracked | txn.go:501-508 | The same for the entry a delete appends. |
| KeyLists.KeyList.Key | extract.go:50-56 | Cuts exactly the i-th key added out of the shared buffer. |
| KeyLists.KeyList.Add | extract.go:58-65 | The list gains one key: the bytes appended since the last end; earlier keys stay. |
| CompoundKeys.Product | extract.go:713-744 | Terminates, and emits exactly the key sequence of the recursive walk, each key followed by the suffix, for 0 to 8 levels with and without AllowMissing. |
| CompoundKeys.KeysAre | index.go:851-892 | The keys of a product are the combinations of one value from each sub-index run together, with AllowMissing also those of the first sub-indexes only, and no others. |
| CompoundSizes.WalkSize | index.go:851-892 | The number of keys the walk emits and their total length, from any level and prefix on. |
| CompoundSizes.Measure | extract.go:685-708 | The two numbers computed before the first key is built are exactly the number of keys emitted and their bytes, suffixes included. |
| OrderedKeys.FlipIsAdd | extract.go:388-391 | On 64-bit words, flipping the sign bit and truncating to each width is adding the sign bit modulo the width. |
| OrderedKeys.BigEndianOrder | extract.go:394-405 | Big-endian bytes of numbers that fit compare as the numbers do, and are equal only for equal numbers. |
| OrderedKeys.UintOrder | index.go:449-466 | Unsigned keys of width 1, 2, 4 and 8 are injective and compare as the numbers. |
| OrderedKeys.IntOrder | index.go:353-376 | Signed keys of width 1, 2, 4 and 8 are injective and compare as the numbers. |
| OrderedKeys.IntValue | index.go:353-376 | The bytes of a signed key spell the number plus the weight of the sign bit, most significant first. |
| OrderedKeys.UintValue | index.go:449-466 | The bytes of an unsigned key spell the number. |
| OrderedKeys.Ranges | extract.go:388-405 | The widths, the ranges of the integer types of each width, and the weights of their sign bits, as numbers. |
| OrderedKeys.LessIff | docs/compatibility.md:24-24 | The order of keys is that of their bytes: up to some place two keys are the same, and there the first has ended or has the smaller byte. |
| OrderedKeys.TupleOrder | index.go:702-723 | Keys of tuples of NUL-free strings and fixed-width numbers compare exactly as the tuples, and no key is a prefix of another tuple's key. |
| OrderedKeys.KeyParsed | index.go:702-723 | A tuple's key splits, at the first NUL of a text and at the width of a number, into exactly the fields it was made of, whatever follows it. |
| OrderedKeys.CompoundKey | extract.go:608-633 | The key of the fields up to the first missing one; no key exactly if a field is missing and AllowMissing is off. It has as many bytes as the texts, a NUL for each, and the widths of the numbers, and reads back as the fields with nothing left over. |
| NameIndexes.Builder.Counted | schema_compile.go:124-128 | Prefix sums turn the counts of the lengths into the positions where each length starts. |
| NameIndexes.Builder.Place | schema_compile.go:130-135 | Each name lands behind those of its length placed before, within its range. |
| NameIndexes.Builder.Done | schema_compile.go:137-153 | Each length has exactly its names, in ascending order where they are many. |
| NameIndexes.New | schema_compile.go:155-171 | The index of exactly the given names, for no names too. |
| NameIndexes.Get | schema_compile.go:173-196 | An entry for the name if one was given, and none exactly if not, by comparison or by bisection. |
| NameIndexes.NamesResolve | schema_compile.go:358-386 | The names an index list yields are exactly those the rule "strip one trailing _prefix first" resolves, for every string. |
| NameIndexes.PrefixNameResolves | schema_compile.go:358-386 | Of a name that ends in the seven characters "_prefix" the rule makes a prefix scan of the index called by what is before them. |
| NameIndexes.PlainNameResolves | schema_compile.go:358-386 | Of any other name it makes an index of exactly that name, and never a prefix scan. |
| NameIndexes.IndexNames | schema_compile.go:358-386 | The name index of a table has each index under its name, and a second entry for its prefix form. |
| NameIndexes.Resolve | schema_compile.go:344-356 | Looking up any string gives what that rule gives, and nothing exactly where the rule resolves nothing; an index name followed by "_prefix" always gives a prefix scan of an index of that name, and a name without it never a prefix scan. |

## Left out

- The radix tree (go-juuri) is not part of this model. A tree is a finite map behind a handle; that a handle follows
  later writes until Freeze, and never after it, is its contract. Iteration over a prefix lists the keys in ascending byte order (docs/compatibility.md:24).
- The trees of all bitmap indexes of a table, and the sets of used and free ids, are one tree keyed by place.
- Watch channels and which of them fire (`watch.go`, `watch_few.go`, `watch-gen/`).
- A node keeps its child array for life: `append` and `slices.Insert` grow it in place here, where Go may move it to
  another array that only this node has. A vector node's values and children are in one object.
- Epochs are unbounded; the code's uint64 counter would wrap after 2^64 draws.
- Bitwise or of parts of an id that occupy disjoint bits is written as a sum.
- TableTxn.Txn.DeletePrefix: the key that the indexer makes of the prefix and the raw prefix are two parameters.
- What a panic leaves behind of a transaction: it can only be aborted here. All that has been handed out stays.
- PrefixModel.ListedDeleted: what is left is the same table up to sets that are absent and sets that are empty, which an
  index tree does not tell apart here.
- TableOutcomes.PrefixDetermined: the same holds of what is left; the lines of the two bookkeepings are not compared.
- OrdinaryIndex.PrefixFreeOwn: only non-unique indexes. Unique ones do not reject duplicates, and the last write
  wins (docs/compatibility.md:50).
- CompoundSizes.Measure: for 1 to 8 levels that are not empty; with no levels the code reserves nothing.
- CompoundKeys.Product: collecting the values of the sub-indexers into the levels (extract.go:652-683) comes before it.
- ChangeLog.HasDuplicate: the hash is a parameter, any function of table and key.
- NameIndexes.Builder.Done: `slices.SortFunc` is an insertion sort, as a stand-in for any sort.
- Database.Database.Begin: the bookkeeping is loaded when the transaction starts instead of at the first write of a
  table.
- Database.Database.Commit: a transaction without writes publishes an equal version, where the code keeps the old one.
- Database.Database.Ask: every query freezes the bookkeeping and adds its state to what has been seen, also on a table
  not yet written, where the code reads the published version; the contents are the same.
- A database has one table here, and a commit replaces one table's version. The published root and the writer lock are a
  field and a flag: one writer, publication in one step, no memory model.
- Which error is returned and its text: only that a call is refused, or does not find its row.
- Rows are opaque. Indexers are functions of the row that give values, nothing, or an error; reflection and field access
  (`extract_safe.go`, `extract_unsafe.go`), lower-casing and the UUID parser are left out.
- `typed.go`, `seq.go`, `filter.go`, `changes.go`: thin wrappers whose properties would follow from those above.
- Deferred functions, `sync.Pool`, buffer reuse between calls, and cost.
