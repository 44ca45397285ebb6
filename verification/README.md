# Verified models of Quirrel's core structures

Dafny models of the hand-built data structures and state machines of the Quirrel scripting VM, with proofs over every
input, every run and every reachable state. `dafny verify dfyconfig.toml` checks the whole project.

| file | models | main results |
|---|---|---|
| `TableChains.dfy`, `Table.dfy` | SQTable: the chained scatter table with moved colliders, a descending free pointer and removed nodes left linked | over every run it is a finite map; rehashing never nests; hinted access equals plain access for any hint |
| `Class.dfy` | SQClass: packed member indices over three vectors, and the inline caches of literal get and set | bijection of keys and slots (and exactly when it breaks); whatever happens to the classes, cached indices are fresh, with the exact condition for loads; methods are bound strictly up the base classes |
| `Gc.dfy` | marking over doubly linked chains, ResurrectUnreachable | marked is reachable, on any cyclic graph; the chains partition the objects |
| `Buckets.dfy`, `StringTable.dfy`, `RefTable.dfy` | string interning and host references: bucket lists relinked in place | pointer equality is content equality; counts are the balance of any run |
| `Blob.dfy`, `Serial.dfy`, `SerialShortest.dfy`, `SerialTables.dfy`, `Serializer.dfy` | the tagged byte format with string back-references, on SQBlob | read back is what was written if and only if it is within the size limits, has no negative zero and no reference beyond 32 bits; no accepted form of a value is shorter than the written one |
| `Rex.dfy`, `RexChoices.dfy`, `RexNodes.dfy`, `RexCaptures.dfy`, `RexMachine.dfy`, `RexGrammar.dfy`, `RexLimits.dfy`, `RexCompiler.dfy` | the regular expression engine: pattern text, parser into a patched node array, greedy matcher with one node of lookahead, captures, search | compiles exactly the patterns of an unambiguous grammar whose tree is within the limits; the array matcher refines the tree matcher, terminates and is sound; which alternative and which count it takes; set captures are right, and exactly when all groups are captured |
| `Vm.dfy`, `Generator.dfy` | stack, frames and open outers; generators that save and restore a frame | closing, relocating, entering, leaving, yielding and resuming change no closure's reads; a resumed frame equals the yielded one at any base |
| `HeapSort.dfy` | array.sort | ends for every comparator, even one that writes into the array; a permutation exactly when no call changed the contents; sorted for a total preorder |
| `StringLib.dfy` | split, join, in-place replace | join undoes split exactly for separators without inner NUL; replace is split and join |
| `Modules.dfy` | SqModules: require, import, reload | restored stack, one load per file, storage kept and unshared, exports are what the script returned; success exactly when a load order exists |

`Objects.dfy` holds the script values they share, `Seqs.dfy` the sequences.

Conventions. Objects and nodes are numbered and links are indices, -1 being null. Hash functions, character tests, name
resolution and class-type mixing are arbitrary functions given as parameters. Integers are unbounded except where the code
depends on their width: 32-bit string numbers, the 64-bit integers and byte widths of the stream, the 24- and 40-bit halves of a
hint word, the 16-bit repetition bounds, signed characters. Errors and longjmp exits are results. Where the source updates
fields or arrays in place, so do the classes here; ghost fields hold the abstract value.

Where the code does not do what one would first write down:

- SQTable::NewSlot places the key before a forced rehash (squirrel/sqtable.cpp:235) and then returns false for a key that
  is new; `Tables.Table.NewSlot` gives the exact condition before the call, `Tables.FirstKeyIsNotNew` an input.
- SQClass: a method name redefined as a field keeps its method slot, so keys and slots are not always in bijection;
  `Classes.Class.NewSlot` says exactly when a slot is orphaned.
- A remembered absence on the load path of a locked class goes stale when a method is added (`Classes.StaleAbsence`);
  `Classes.Instruction.Use` gives the exact condition. Both paths of the instruction share one word, so a table's word that
  happens to name a locked class is used as it is.
- A written negative zero is read as zero, the reader's size limit is not the writer's, and string numbers wrap around at
  32 bits: `Serial.RoundTrip` is an if-and-only-if.
- string.split compares with strncmp, so a separator with an inner NUL cuts texts that do not contain it: `StringLib.NulCut`,
  `StringLib.SplitJoin`.
- A comparator may write into the array being sorted (squirrel/sqbaselib.cpp:1413-1416 rejects only a resize), so sort need
  not end with a permutation: `HeapSort.NotPermuted`, and `HeapSort.PermutedExactly` for the exact condition.
- The regex matcher does not backtrack: `RexCompiler.Incomplete` is a pattern and a text of its language it rejects, and
  `Rex.NoChoiceExact` the patterns it decides. Captures are not cleared between searches (sqstdlib/sqstdrex.cpp:646-686), so a
  capture is right for the current text or left over from before, which is what `RexMachine.Machine.SearchRange` states.
- A group that stands after a group holding other groups is not captured (the current number is set back,
  sqstdlib/sqstdrex.cpp:519): `RexCaptures.NestingLoses`, and `RexCaptures.AllSetExactly` for the exact condition. A lookahead
  runs the groups it asks and a failing one leaves the number moved on (lines 510-515), so a group after a repetition can be
  lost or captured in the wrong place: `RexCaptures.AskingLoses`, and `RexCaptures.CapturedAfterLoop` for the exact condition.
- A repeated assertion is counted once (sqstdlib/sqstdrex.cpp:441-442): `RexChoices.StillExact` says when that refuses a text.
- In the regex lookahead, the branch that looks past the lookahead node (sqstdlib/sqstdrex.cpp:452-454) is kept in the model
  although the successors it could find are already taken by the branch before it.

## Model

| member | source | states |
|---|---|---|
| `Tables.Table.constructor` | squirrel/sqtable.cpp:38-49 | the smallest power of two that holds the request, empty, standing for the empty map |
| `Tables.Table.Find` | squirrel/sqtable.h:85-104 | the walk from a key's main position returns the key's node if the key is in the map and null otherwise, also past removed nodes |
| `Tables.Table.FindPrev` | squirrel/sqtable.cpp:211-216 | the predecessor walk of a collision ends, at the node that links to the collider |
| `TableChains.PlaceAtMain` | squirrel/sqtable.cpp:200-235 | taking a free main position, which may be a removed node inside a chain, keeps the whole chain invariant |
| `TableChains.PlaceBehind` | squirrel/sqtable.cpp:228-233 | linking the newcomer in behind its main position keeps every key reachable, links acyclic and single-predecessor, and linked nodes above the free pointer |
| `TableChains.PlaceByMove` | squirrel/sqtable.cpp:211-227 | moving a displaced collider to the free node and giving its place to the newcomer loses no key |
| `TableChains.FreeIsNoMain` | squirrel/sqtable.cpp:200-235 | the free node is the main position of no live key, so filling it makes no squatter |
| `TableChains.MoveReach` | squirrel/sqtable.cpp:211-227 | every walk survives the move of a collider; one that ended at the moved node now ends at its new place |
| `TableChains.SpliceReach` | squirrel/sqtable.cpp:228-233 | every walk survives splicing in a node |
| `TableChains.Tombstone` | squirrel/sqtable.cpp:51-63 | freeing a key's node and leaving its link keeps the invariant for the other keys |
| `TableChains.FullCount` | squirrel/sqtable.cpp:237-267 | when the free pointer runs off a table that was never deleted from, every node holds a key |
| `Tables.Table.MoveCollider` | squirrel/sqtable.cpp:211-227 | the invariant holds after the move, the newcomer is at its main position and no other entry changed |
| `Tables.Table.ChainNewcomer` | squirrel/sqtable.cpp:228-233 | the invariant holds with the newcomer in the free node and no other entry changed |
| `Tables.Table.TakeMain` | squirrel/sqtable.cpp:200-235 | the invariant holds with the newcomer in its free main position and no other entry changed |
| `Tables.Table.Place` | squirrel/sqtable.cpp:200-235 | whichever of the three ways is taken, exactly one key is added to the map and the invariant holds |
| `Tables.Table.AdvanceFree` | squirrel/sqtable.cpp:237-265 | the free pointer only descends; it stops on a free unlinked node exactly when there is one at or below it, and otherwise runs off, on a table without removed nodes only when the table is full |
| `Tables.Table.CountInsertion` | squirrel/sqtable.cpp:243-259 | how the type id changes, and that a nonzero one implies at most 32 nodes |
| `Tables.Table.NewSlot` | squirrel/sqtable.cpp:190-268 | for every table the new map is the old one with the key set; the answer is true exactly for a new key that, before the call, finds another free unlinked node at or below the free pointer; otherwise the table is rehashed, once, and with room (which a rehash always leaves) it is not; the type id and the size it leaves |
| `Tables.FirstKeyIsNotNew` | squirrel/sqtable.cpp:266-267 | an ordinary input where a new key is answered with false: the first key of a table of the smallest size |
| `Tables.Table.InsertNew` | squirrel/sqtable.cpp:200-267 | the same for a key that is not in the table: placed first, then counted, or rehashed and stored once more |
| `Tables.Table.Retry` | squirrel/sqtable.cpp:266-267 | with the key already placed, the rehash and the one retry store the value and do not rehash again |
| `Tables.Table.AllocNodes` | squirrel/sqtable.cpp:65-74 | the new array is the empty map with its free pointer at the end |
| `Tables.Table.Reinsert` | squirrel/sqtable.cpp:102-107 | re-inserting all live nodes of the old array gives the same map in the same new array: no insertion rehashes again |
| `Tables.Table.Rehash` | squirrel/sqtable.cpp:76-111 | the map is unchanged and the table valid, at twice, half or the same size as the load and the force flag say |
| `Tables.Table.Get` | squirrel/sqtable.cpp:157-165 | the mapped value, or absence |
| `Tables.Table.Set` | squirrel/sqtable.cpp:289-298 | true exactly for a present key, whose value is replaced; the node array and type id stay |
| `Tables.Table.Remove` | squirrel/sqtable.cpp:51-63 | the map without the key; a removed key resets the type id and lets the table shrink by the rule, an absent one changes nothing |
| `Tables.Table.Clear` | squirrel/sqtable.cpp:317-326 | the empty map, no type id and the free pointer at the end, in the old or in a new node array of the right size |
| `Tables.Table.Clone` | squirrel/sqtable.cpp:113-147 | a new table with the same nodes, free pointer and type id that stands for the same map |
| `Tables.Table.CountUsed` | squirrel/sqtable.h:150-150 | the number of keys of the map |
| `Tables.Table.Next` | squirrel/sqtable.cpp:270-287 | the first live node at or after a position, or the end |
| `Tables.Table.VisitAll` | squirrel/sqtable.cpp:270-287 | stepping from null to the end yields every live key exactly once with its value |
| `Tables.LiveKeysOnce` | squirrel/sqtable.cpp:270-287 | the nodes in order list each key of the map once and no other |
| `Tables.Table.GetNodeFromTypeHint` | squirrel/sqtable.h:129-140 | for any hint, stale or colliding, the key's node exactly when the hint's index is that node, otherwise null |
| `Tables.Table.HintedNode` | squirrel/sqvm.cpp:1268-1282 | exactly when the cache finds the key's node; the word left behind then names this table and that node, whose index fits five bits |
| `Tables.Table.GetLiteral` | squirrel/sqvm.cpp:1350-1378 | for any hint word the hinted load gives what a plain lookup gives, and the word left names the key's node unless it was of this type already or the key is absent |
| `Tables.Table.SetLiteral` | squirrel/sqvm.cpp:1265-1289 | for any hint word the hinted store leaves the table a plain store leaves, with the same rule for the word |
| `Tables.Step` | squirrel/sqtable.cpp:51-326 | each operation answers and acts as on a finite map |
| `Tables.Run` | squirrel/sqtable.cpp:51-326 | a table that has gone through any sequence of NewSlot, Set, Get, Remove, Clear, Clone and hinted gets and sets with any hint words answered every one of them as a finite map would and ends as that map |
| `Classes.Unpack` | squirrel/sqclass.h:20-37 | kind and index are recovered from a packed index, which is nonzero and fits 24 bits |
| `Classes.HintBack` | squirrel/sqclass.h:101-115 | class id and member index are recovered from a hint word, which fits 64 bits |
| `Classes.SlotsFit` | squirrel/sqclass.cpp:80-131 | the member limit keeps all three vectors within the 22 index bits, orphaned method slots included |
| `Classes.AddMember` | squirrel/sqclass.cpp:114-129 | giving a new key the next slot of a vector keeps keys and slots in bijection |
| `Classes.MethodToField` | squirrel/sqclass.cpp:126-129 | redefining a method name as a field keeps the bijection except for the one method slot left behind |
| `Classes.RedefinitionOrphans` | squirrel/sqclass.cpp:80-131 | the plain bijection is false: after that redefinition a method slot exists that no key names |
| `Classes.Class.constructor` | squirrel/sqclass.cpp:13-40 | a derived class starts with the base's members, indices, values, native fields, metamethods, constructor index, native size and bijection |
| `Classes.Class.Lock` | squirrel/sqclass.cpp:162-185 | bases first; exactly what it answers and which classes end locked for any answers of the lock hooks; no index changes and locked ones keep their id |
| `Classes.Class.NewSlot` | squirrel/sqclass.cpp:80-131 | exactly when it succeeds, what the key then reads (in a derived class a closure of the same function bound to the base class, everything else as given), the metamethod or constructor index it sets, whether it is a method or a field slot, that other keys read the same, that a locked class keeps its indices, and exactly when a method slot loses its key |
| `Classes.Class.PutMethod` | squirrel/sqclass.cpp:110-122 | the key reads the method, others unchanged, existing indices kept |
| `Classes.Class.PutField` | squirrel/sqclass.cpp:126-129 | the key reads the value, others unchanged, and the orphaned slot if any |
| `Classes.Class.RegisterNativeField` | squirrel/sqclass.cpp:187-207 | exactly when it succeeds, and then one new key with the next native slot, all others reading the same |
| `Classes.WellPacked` | squirrel/sqclass.h:20-37 | every index of a valid class is nonzero and fits 24 bits, so 0 can stand for absence |
| `Classes.Instruction.Create` | squirrel/sqclass.cpp:13-40 | a class with a new id comes to life and finds every key as its base does, with the bindings its methods had there; no hint word of the instruction's own names it |
| `Classes.Instruction.Lock` | squirrel/sqclass.cpp:162-185 | locking classes leaves the instruction's word right |
| `Classes.Instruction.Define` | squirrel/sqclass.cpp:80-131 | defining members, in locked and unlocked classes, leaves the instruction's word right, and along every run each closure a class finds is bound to a class further up, unless it came bound and was stored as it came |
| `Classes.Instruction.BoundUpward` | squirrel/sqclass.cpp:105-109 | if no closure came bound, no closure a class finds is bound to that class or to one derived from it |
| `Classes.InheritedMethod` | squirrel/sqclass.cpp:13-40 | a method found by inheritance is bound to the base of the class that defined it |
| `Classes.Instruction.DefineNative` | squirrel/sqclass.cpp:187-207 | so does registering native fields, which adds the next native slot or nothing |
| `Classes.Instruction.TablePath` | squirrel/sqvm.cpp:1265-1289 | the table path of the same instruction may leave any word |
| `Classes.Instruction.Use` | squirrel/sqvm.cpp:1220-1248 | after any sequence of these: a store uses the index a fresh lookup finds, remembered absence included, and a load does so if and only if the cache missed, remembers a nonzero index, or the member is still absent; the one exception is a word of the table path that names the locked class |
| `Classes.StaleAbsence` | squirrel/sqvm.cpp:1313-1340 | a run on real classes where a load uses a remembered absence although the member exists by then |
| `Classes.FieldIndexFits` | squirrel/sqclass.h:219-251 | a field index found by a store is inside the instance values |
| `Gc.UnlinkKeeps` | squirrel/sqstate.cpp:408-416 | removing a node from a doubly linked chain leaves a well formed chain of the others |
| `Gc.PushKeeps` | squirrel/sqstate.cpp:400-406 | adding a node gives a well formed chain with it in front |
| `Gc.JoinKeeps` | squirrel/sqstate.cpp:340-349 | putting one chain in front of another gives one well formed chain |
| `Gc.ClosedHolds` | squirrel/sqobject.cpp:634-751 | a set of objects closed under the Mark edges holds everything reachable from its members |
| `Gc.SharedState.MoveToTarget` | squirrel/sqobject.cpp:634-639 | a finished object changes chains; both chains stay well formed and exact |
| `Gc.SharedState.Mark` | squirrel/sqobject.cpp:634-751 | on any graph, cyclic or not, it ends, marks the object, marks only what the object reaches, unmarks nothing and moves each finished object to the target chain |
| `Gc.SharedState.RunMark` | squirrel/sqstate.cpp:282-309 | exactly the objects reachable from the roots are marked and on the target chain, exactly the others stay on the gc chain |
| `Gc.SharedState.ListChain` | squirrel/sqstate.cpp:327-339 | the walk lists the chain's objects other than prototypes and outers, in order, and finds its last node |
| `Gc.SharedState.UnmarkChain` | squirrel/sqstate.cpp:350-354 | exactly the objects of the chain lose their mark |
| `Gc.SharedState.Rejoin` | squirrel/sqstate.cpp:325-349 | unreachable objects, the new array and live objects form one chain in that order |
| `Gc.SharedState.ResurrectUnreachable` | squirrel/sqstate.cpp:311-364 | one unmarked chain of all old objects plus the result; the result lists each unreachable object other than prototypes and outers once; the returned number counts the unreachable objects |
| `StringTables.StringTable.Find` | squirrel/sqstate.cpp:631-637 | the live object with this content, or null |
| `StringTables.StringTable.Add` | squirrel/sqstate.cpp:627-652 | the one live object with this content; a new one only if there was none; all others as before, and never more strings than buckets |
| `StringTables.StringTable.Remove` | squirrel/sqstate.cpp:672-694 | exactly that object leaves the table |
| `StringTables.StringTable.Resize` | squirrel/sqstate.cpp:654-670 | relinking every object in place leaves each on the bucket of its hash in a table of the new size |
| `StringTables.StringTable.MoveBucket` | squirrel/sqstate.cpp:659-668 | one old bucket is emptied, the objects of the others untouched |
| `StringTables.StringTable.PointerIsContent` | squirrel/sqstate.cpp:627-694 | among live strings, same object and same content are the same thing |
| `RefTables.RefTable.constructor` | squirrel/sqstate.cpp:437-441 | an empty table whose nodes are all on the free list |
| `RefTables.RefTable.AllocNodes` | squirrel/sqstate.cpp:574-598 | all nodes on the free list, no counts |
| `RefTables.RefTable.Find` | squirrel/sqstate.cpp:552-565 | the object's node and its predecessor in the bucket, or none |
| `RefTables.RefTable.Add` | squirrel/sqstate.cpp:539-550 | a free node moves to the front of the object's bucket; buckets and free list still partition the array |
| `RefTables.RefTable.AddRef` | squirrel/sqstate.cpp:470-476 | the object's count grows by one, others unchanged, also when the table doubles, which it does exactly when it is full |
| `RefTables.RefTable.GetRefCount` | squirrel/sqstate.cpp:478-485 | the object's count, 0 if it is not held |
| `RefTables.RefTable.Release` | squirrel/sqstate.cpp:487-513 | the count drops by one; at zero the object is gone and the answer is true; an object not held changes nothing |
| `RefTables.RefTable.Unlink` | squirrel/sqstate.cpp:495-504 | the node returns to the free list; buckets and free list still partition the array |
| `RefTables.RefTable.Resize` | squirrel/sqstate.cpp:515-537 | doubling a full table keeps every object and count |
| `RefTables.RefTable.Run` | squirrel/sqstate.cpp:470-598 | after any run of AddRef and Release every object's count is the balance of that run |
| `RefTables.BalanceIsDifference` | squirrel/sqstate.cpp:470-513 | where no prefix releases more than it added, the balance is AddRefs minus Releases |
| `Blobs.FromLEOfLE` | sqstdlib/sqstdblobimpl.h:20-39 | reading back a little-endian number gives the number |
| `Blobs.LowFirst` | sqstdlib/sqstdblobimpl.h:20-39 | earlier bytes are the lower ones of the number |
| `Blobs.Blob.Resize` | sqstdlib/sqstdblobimpl.h:41-61 | the contents cut to the new size, the cursor within |
| `Blobs.Blob.GrowBufOf` | sqstdlib/sqstdblobimpl.h:63-72 | the size grows by exactly n, the contents stay |
| `Blobs.Blob.Write` | sqstdlib/sqstdblobimpl.h:20-27 | the bytes are laid over the contents at the cursor, which moves behind them |
| `Blobs.Blob.Read` | sqstdlib/sqstdblobimpl.h:29-39 | as many bytes as there are, from the cursor |
| `Blobs.Blob.Seek` | sqstdlib/sqstdblobimpl.h:79-96 | moves exactly when the target is inside the contents |
| `Serial.IntBack` | sqstdlib/sqstdserialization.cpp:120-151 | every 64-bit integer, in each of its encodings, is read back |
| `Serial.FloatBack` | sqstdlib/sqstdserialization.cpp:152-192 | every float is read back, a negative zero as zero |
| `Serial.StrBack` | sqstdlib/sqstdserialization.cpp:193-251 | a new string or a back-reference of any width is read back as the string with that 32-bit number, and both sides number strings alike |
| `Serial.SizeBack` | sqstdlib/sqstdserialization.cpp:252-312 | array and table sizes of every width are read back |
| `Serial.DecBack` | sqstdlib/sqstdserialization.cpp:462-712 | reading what was written for a tree gives its normal form, consumes exactly those bytes whatever follows, and leaves the reader's string list equal to the writer's |
| `Serial.DecIsBounded` | sqstdlib/sqstdserialization.cpp:462-712 | the reader never returns a tree with a string, array or table at or over the size limit |
| `Serial.NormExact` | sqstdlib/sqstdserialization.cpp:111-327 | a tree is its own normal form if and only if it has no negative zero and every repeated string is among the first 2 to the 32 different ones |
| `Serial.FewStrings` | sqstdlib/sqstdserialization.cpp:227-250 | which holds of every tree with at most 2 to the 32 different strings |
| `Serial.EncDistinct` | sqstdlib/sqstdserialization.cpp:203-228 | the writer never lists a string twice |
| `Serial.LoadBack` | sqstdlib/sqstdserialization.cpp:855-884 | a stream between its markers is read back at any place among other bytes |
| `Serial.RoundTrip` | sqstdlib/sqstdserialization.cpp:855-884 | for every tree of supported values: the tree read back is the tree written if and only if every string, array and table is below the size limit, no float is a negative zero and no repeated string is beyond the reach of a 32-bit number |
| `Serializers.Serializer.SerializeObject` | sqstdlib/sqstdserialization.cpp:111-327 | succeeds exactly for trees within the depth limit without unsupported values, and writes exactly the tree's encoding at the cursor |
| `SerialShortest.WrittenIsShortest` | sqstdlib/sqstdserialization.cpp:111-327 | for every tree without strings, no bytes that the reader takes for it are fewer than the written ones, repeated keys in the read bytes included |
| `SerialShortest.IntShortest` | sqstdlib/sqstdserialization.cpp:120-150 | no bytes read as an integer are fewer than those written for it |
| `SerialShortest.FloatShortest` | sqstdlib/sqstdserialization.cpp:152-191 | the same for floats |
| `SerialShortest.StrShortest` | sqstdlib/sqstdserialization.cpp:193-251 | a string not written before takes no more bytes than any reading of it |
| `SerialShortest.RefShortest` | sqstdlib/sqstdserialization.cpp:193-251 | a string written before takes no more bytes than any reading that adds no string |
| `SerialShortest.SizeShortest` | sqstdlib/sqstdserialization.cpp:252-312 | no bytes read as a size are fewer than those written for it or a smaller one |
| `SerialTables.ReadTable` | sqstdlib/sqstdserialization.cpp:669-712 | a table is read exactly where its pairs can be read, and holds under every primitive key, once, the value of the last pair that had it |
| `SerialTables.UpsertStores` | sqstdlib/sqstdserialization.cpp:698-710 | storing a pair sets its own key and no other |
| `SerialShortest.FirstByte` | sqstdlib/sqstdserialization.cpp:29-36 | every value starts with a byte of its type that meets the reader's assertions |
| `Serializers.Serializer.SerializeString` | sqstdlib/sqstdserialization.cpp:193-251 | writes the string or its back-reference as the strings already written demand |
| `Serializers.Serializer.SerializeArray` | sqstdlib/sqstdserialization.cpp:252-285 | the array's size and items in order, depth restored |
| `Serializers.Serializer.SerializeTable` | sqstdlib/sqstdserialization.cpp:286-327 | the table's size and entries in order, depth restored |
| `Serializers.Serializer.Serialize` | sqstdlib/sqstdserialization.cpp:432-454 | the markers around the tree |
| `Serializers.Serializer.DeserializeObject` | sqstdlib/sqstdserialization.cpp:462-712 | the imperative reader agrees with the decoding of the bytes, failures included |
| `Serializers.Serializer.DeserializeString` | sqstdlib/sqstdserialization.cpp:552-627 | strings and back-references agree with the decoding, the string list grows alike |
| `Serializers.Serializer.DeserializeItems` | sqstdlib/sqstdserialization.cpp:657-666 | the items of an array agree with the decoding |
| `Serializers.Serializer.DeserializeEntries` | sqstdlib/sqstdserialization.cpp:697-711 | the entries of a table agree with the decoding, a repeated key replacing the earlier one |
| `Serializers.Serializer.Deserialize` | sqstdlib/sqstdserialization.cpp:855-884 | the whole reader agrees with the decoding of the stream |
| `Serializers.WriteThenRead` | sqstdlib/sqstdserialization.cpp:855-884 | writing to a blob, seeking back and reading returns the tree and ends behind it exactly under the round-trip condition |
| `Rex.MatchClass` | sqstdlib/sqstdrex.cpp:398-413 | walking the items decides membership in the class |
| `Rex.AtBoundary` | sqstdlib/sqstdrex.cpp:524-533 | a word boundary is where exactly one neighbour is a character that is no space |
| `Rex.CloseFromBalanced` | sqstdlib/sqstdrex.cpp:561-577 | the counting loop returns an end exactly where the text is balanced for the first time |
| `Rex.MatchNode` | sqstdlib/sqstdrex.cpp:415-585 | matching ends on every pattern tree and text, and a match lies between the start position and the end of the line |
| `RexChoices.PicksExact` | sqstdlib/sqstdrex.cpp:415-585 | on every pattern and text the matcher answers exactly the end of a derivation: the first alternative that has one, chains with their lookahead, and for repetitions the sequence of all body matches up to where it halts |
| `RexChoices.OrExact` | sqstdlib/sqstdrex.cpp:473-491 | an alternation takes the text of its left side if that has one here and else that of its right side, stated through the language; with choice-free sides it matches exactly where its language has a text |
| `RexChoices.GreedyExact` | sqstdlib/sqstdrex.cpp:420-472 | a repetition stops at the first count that suffices and whose end the successor can follow, or else at the largest there is, stated through the language |
| `RexChoices.GreedyLongest` | sqstdlib/sqstdrex.cpp:420-472 | with no successor to ask it takes the largest count within the bound, and matches exactly where its language has a text |
| `RexChoices.StillExact` | sqstdlib/sqstdrex.cpp:441-442 | a repeated assertion is counted once, so a text of the language is refused exactly when the assertion holds and two or more are demanded |
| `Rex.MatchNodeSound` | sqstdlib/sqstdrex.cpp:415-585 | whenever the matcher returns a position, the consumed text is in the node's language |
| `Rex.GreedyLoopSound` | sqstdlib/sqstdrex.cpp:420-472 | the repetition loop stops after a run of consecutive matches of its body |
| `Rex.MatchSound` | sqstdlib/sqstdrex.cpp:646-656 | a reported match means the whole text is in the pattern's language |
| `Rex.NoChoiceExact` | sqstdlib/sqstdrex.cpp:415-585 | for patterns without alternation and repetition the matcher decides the language exactly |
| `Rex.CommitsToFirstBranch` | sqstdlib/sqstdrex.cpp:473-491 | the tree of a pattern (a or ab, then c) and a text in its language that the matcher rejects |
| `RexNodes.ElemFrame` | sqstdlib/sqstdrex.cpp:79-94 | what a node stands for depends only on the nodes of its own range |
| `RexNodes.ElemNext` | sqstdlib/sqstdrex.cpp:342-345 | patching a node's successor does not change what it stands for |
| `RexMachine.Machine.RunNode` | sqstdlib/sqstdrex.cpp:415-585 | on the node array the matcher ends and answers as on the tree, whatever the captures hold; every capture it sets spans text in its group's language, other captures keep their values, and captures and current number are exactly those of the capture function |
| `RexMachine.Machine.RunClass` | sqstdlib/sqstdrex.cpp:398-413 | the link walk over class items decides the class |
| `RexMachine.Machine.RunBalanced` | sqstdlib/sqstdrex.cpp:561-577 | the loop over the text finds the balanced end |
| `RexMachine.Machine.RunExpr` | sqstdlib/sqstdrex.cpp:492-523 | a group matches as its chain does and sets its capture to exactly the matched span, or clears it on failure, and moves the current number on |
| `RexCaptures.TidySpans` | sqstdlib/sqstdrex.cpp:492-523 | a tidy pattern node (what stands before a group is a group without groups, or has none and does not look ahead at one) captures all its groups: the text splits among its nodes so that every capture is the part its group matched |
| `RexCaptures.MatchCaptures` | sqstdlib/sqstdrex.cpp:492-523 | after a match of a tidy pattern every capture is set to a part inside the match that is in its group's language; groups in a row divide the match among themselves without gaps |
| `RexCaptures.AllSetExactly` | sqstdlib/sqstdrex.cpp:492-523 | a pattern without choices captures all its groups, in any match, if and only if it is tidy |
| `RexCaptures.NestingLoses` | sqstdlib/sqstdrex.cpp:496-519 | the tree of a pattern (a group in a group, then a group) that has no choices, matches and is not tidy |
| `RexCaptures.CapturedAfterLoop` | sqstdlib/sqstdrex.cpp:443-463 | a group after a repetition is captured where it matched if and only if the repetition took at most one match |
| `RexCaptures.AskingLoses` | sqstdlib/sqstdrex.cpp:443-463 | the tree of a pattern (a repetition, then a group) and a text it matches without setting the group's capture |
| `RexCaptures.QuietNode` | sqstdlib/sqstdrex.cpp:415-585 | a node without groups that looks ahead at none changes no capture and not the current number |
| `RexCaptures.KeepsNode` | sqstdlib/sqstdrex.cpp:415-585 | captures below the numbers of the node and its lookahead keep their values, and all do once the current number has fallen behind |
| `RexMachine.Machine.RunBranch` | sqstdlib/sqstdrex.cpp:473-491 | one alternative matches as its chain does, without lookahead |
| `RexMachine.Machine.RunGreedy` | sqstdlib/sqstdrex.cpp:420-472 | the repetition matches as the greedy loop with one node of lookahead does |
| `RexMachine.Machine.Repeat` | sqstdlib/sqstdrex.cpp:433-467 | count and end of the loop; a zero-width match leaves it, so the lookahead call always has less text left |
| `RexMachine.Machine.RunLookahead` | sqstdlib/sqstdrex.cpp:443-463 | whether the next node matches here, a repetition that accepts zero matches never asked |
| `RexMachine.Machine.Match` | sqstdlib/sqstdrex.cpp:646-656 | true exactly when the matcher consumes the whole text, which is then in the language, and capture 0 is the whole text; the captures of a tidy pattern are the parts its groups matched, and without choices all groups are captured exactly when the pattern is tidy |
| `RexMachine.Machine.SearchRange` | sqstdlib/sqstdrex.cpp:658-686 | the leftmost start where the matcher succeeds, or none; capture 0 is that match; every capture is as it was before the call or right for this text, and those of a tidy pattern are the parts its groups matched |
| `RexCompiler.Attach` | sqstdlib/sqstdrex.cpp:342-345 | linking a later chain behind a node makes it a chain of both |
| `RexCompiler.ThreadedItems` | sqstdlib/sqstdrex.cpp:189-236 | the links patched while a class is read lead through exactly its items |
| `RexCompiler.Compiler.Class` | sqstdlib/sqstdrex.cpp:189-236 | a class node that holds exactly the items the text spells, or the text spells no class |
| `RexCompiler.Compiler.ParseNumber` | sqstdlib/sqstdrex.cpp:238-249 | the value of at most nine digits, or there is no such number |
| `RexCompiler.Compiler.Quantifier` | sqstdlib/sqstdrex.cpp:297-334 | the bounds a repetition mark spells, or the mark is malformed |
| `RexCompiler.Compiler.Parens` | sqstdlib/sqstdrex.cpp:266-283 | a group node with the next number around the list inside, or the text spells no group within the limits |
| `RexCompiler.Compiler.Atom` | sqstdlib/sqstdrex.cpp:264-294 | a node for the next atom and nothing before it touched, or the text spells none within the limits |
| `RexCompiler.Compiler.Element` | sqstdlib/sqstdrex.cpp:251-348 | a chain of nodes for the sequence the text spells, or it spells none within the limits of depth and node count |
| `RexCompiler.Compiler.List` | sqstdlib/sqstdrex.cpp:350-373 | a chain for the alternatives the text spells, or it spells none within the limits |
| `RexCompiler.Compiler.Compile` | sqstdlib/sqstdrex.cpp:588-634 | succeeds if and only if the whole pattern spells a tree within the limits, and for patterns of at most 200 characters if and only if it spells a tree; then the patched node array holds that tree with its groups numbered by opening parenthesis |
| `RexGrammar.CharNodeExact` | sqstdlib/sqstdrex.cpp:132-188 | a unit ends at j with node n if and only if its text up to j spells n: a printable character, a control or other escape, a class letter, a balanced pair or a word boundary |
| `RexGrammar.EscapeCharExact` | sqstdlib/sqstdrex.cpp:108-124 | the upper end of a range is the character its text spells |
| `RexGrammar.ListUnique` | sqstdlib/sqstdrex.cpp:350-373 | a pattern spells at most one tree |
| `RexGrammar.AtomUnique` | sqstdlib/sqstdrex.cpp:264-294 | an atom's end and tree are determined by its start |
| `RexGrammar.QuantUnique` | sqstdlib/sqstdrex.cpp:297-334 | a repetition mark has one reading |
| `RexGrammar.BodyUnique` | sqstdlib/sqstdrex.cpp:189-236 | a class body has one reading |
| `RexLimits.ShortFits` | sqstdlib/sqstdrex.cpp:251-262 | every tree spelled by a pattern of at most 200 characters is within the depth and node limits |
| `RexLimits.AtomShort` | sqstdlib/sqstdrex.cpp:251-348 | a pattern makes at most one node per character |
| `RexLimits.NoRestNoSeq` | sqstdlib/sqstdrex.cpp:336-347 | a unit followed by text that spells no sequence within the limits starts none either |
| `RexLimits.NoGroup` | sqstdlib/sqstdrex.cpp:266-283 | a parenthesis around no list, or one not closed, is no atom |
| `RexCompiler.Incomplete` | sqstdlib/sqstdrex.cpp:473-491 | incompleteness on real input: a pattern by its text, and a text in its language that the matcher rejects |
| `RexCompiler.MatchPattern` | sqstdlib/sqstdrex.cpp:588-656 | from pattern text to answer: exactly the patterns that spell a tree within the limits compile, to that tree; the text matches exactly when the matcher consumes it on that tree, and then it is in its language, with the captures of all groups where the pattern is tidy |
| `Vms.Vm.Search` | squirrel/sqvm.cpp:2552-2563 | the outer open at the slot, or the place in the list where it belongs |
| `Vms.Vm.FindOuter` | squirrel/sqvm.cpp:2552-2571 | the outer of the slot, an existing one if there is one; the list stays strictly descending and no read changes |
| `Vms.Vm.LinkOuter` | squirrel/sqvm.cpp:2565-2570 | the list with the new outer in its place stays strictly descending |
| `Vms.Vm.OneOuterPerSlot` | squirrel/sqvm.cpp:2552-2571 | two open outers at one slot are the same outer |
| `Vms.Vm.CloseOuters` | squirrel/sqvm.cpp:2647-2655 | exactly the outers at or above the level are closed, and no closure reads anything else than before |
| `Vms.Vm.RelocateOuters` | squirrel/sqvm.cpp:2638-2645 | every open outer points at its slot of the new buffer |
| `Vms.Vm.Resize` | squirrel/sqvm.cpp:2594-2603 | moving the stack changes no read |
| `Vms.Vm.SetOuter` | squirrel/sqvm.cpp:1507-1514 | a store through an outer is seen by every closure sharing it and by no other |
| `Vms.Vm.EnterFrame` | squirrel/sqvm.cpp:2573-2612 | succeeds exactly when the stack has room or may grow enough; the call record pushed or counted, the stack grown if need be, to the exact size and with null slots, without changing any read |
| `Vms.Vm.LeaveFrame` | squirrel/sqvm.cpp:2621-2636 | back in the caller's frame: exactly the frame's outers closed, exactly the slots above the caller's top cleared, and the only reads that change are of outers left open in a gap between the two frames |
| `Generators.UnpackPacked` | squirrel/sqobject.cpp:150-189 | packing traps at one base and unpacking them at another restores their order, shifted by the displacement |
| `Generators.Generator.Kill` | squirrel/sqclosure.h:124-127 | dead, without saved slots |
| `Generators.Generator.Yield` | squirrel/sqobject.cpp:128-160 | succeeds exactly when running: live slots, size, base, call record and traps saved, the frame cleared, and no closure's reads changed |
| `Generators.Generator.Resume` | squirrel/sqobject.cpp:162-203 | succeeds exactly when suspended and the stack has room; whichever machine it is and whatever happened since, live slots are equal, the rest null, traps in order and shifted by one displacement, the call record with the saved counts, and no closure's reads changed |
| `Generators.YieldThenResume` | squirrel/sqobject.cpp:128-203 | a yield, the return to the caller and a resume on the same or another machine: success exactly when there is room, and then frame and call record restored at the new base |
| `Generators.Step` | squirrel/sqclosure.h:104-127 | exactly when an operation succeeds, the state and the call depth it leaves, and the open outer a capture finds |
| `Generators.Run` | squirrel/sqclosure.h:104-127 | over every run of yields, resumes, kills, calls, returns, captures and assignments on a machine: a resume succeeds only on a suspended generator and a yield only on a running one, neither after a kill, and a closure reads what was last assigned through its outer |
| `HeapSort.Sorter.SiftDown` | squirrel/sqbaselib.cpp:1426-1464 | for every comparator it ends; it fails exactly when a call does; for a total preorder it permutes and makes the heap property hold one node further down |
| `HeapSort.StepSwaps` | squirrel/sqbaselib.cpp:1450-1458 | swapping with the larger child moves the only violation down |
| `HeapSort.StepStops` | squirrel/sqbaselib.cpp:1459-1461 | a root not smaller than its larger child ends the sift with a heap |
| `HeapSort.RootIsMax` | squirrel/sqbaselib.cpp:1426-1464 | in the heap where 0 is above 1 and r above 2r and 2r+1, element 0 is a maximum |
| `HeapSort.Sorter.BuildHeap` | squirrel/sqbaselib.cpp:1466-1474 | for a total preorder, a permutation that is a heap |
| `HeapSort.Sorter.TakeMax` | squirrel/sqbaselib.cpp:1475-1479 | one more element in its final place, the rest a heap |
| `HeapSort.MaxSettles` | squirrel/sqbaselib.cpp:1475-1479 | the root swapped behind the heap is in its final place |
| `HeapSort.Sorter.Compare` | squirrel/sqbaselib.cpp:1390-1424 | one comparison: an error, a missing answer or a resized or moved array fails, anything else written into the array stays |
| `HeapSort.PermutedExactly` | squirrel/sqbaselib.cpp:1466-1481 | the array holds a permutation of its original contents at every point if and only if no call changed what it holds |
| `HeapSort.Sorter.Sort` | squirrel/sqbaselib.cpp:1466-1481 | for every comparator, inconsistent, failing or writing into the array, it ends, asks at least once unless the array is empty, only permutes between calls, and fails exactly when a call fails or finds an element smaller than itself; for a total preorder it succeeds with a sorted permutation |
| `HeapSort.NotPermuted` | squirrel/sqbaselib.cpp:1466-1481 | an input where the permutation fails: a comparator that writes into the array it sorts |
| `StringLib.StrNCmpExact` | squirrel/sqbaselib.cpp:1935-1955 | the bounded comparison is equality for a separator without inner NUL |
| `StringLib.SameIsHit` | squirrel/sqbaselib.cpp:1935-1955 | the bounded comparison misses no occurrence of any separator |
| `StringLib.StringSplit` | squirrel/sqbaselib.cpp:1935-1955 | the parts between the matches the scan finds, an empty separator refused |
| `StringLib.SplitJoin` | squirrel/sqbaselib.cpp:1935-1955 | joining the parts gives back every text if and only if the separator has no NUL before its last byte |
| `StringLib.NulCut` | squirrel/sqbaselib.cpp:1935-1955 | for any other separator, a text that does not come back |
| `StringLib.PartsAreClean` | squirrel/sqbaselib.cpp:1935-1955 | no part contains the separator, whatever its bytes |
| `StringLib.SplitExact` | squirrel/sqbaselib.cpp:1935-1955 | a list of parts is the split if and only if it joins to the text and takes the separators from the left |
| `StringLib.BufConcat` | squirrel/sqbaselib.cpp:1811-1825 | writes exactly the joined text, of exactly the precomputed length |
| `StringLib.StringJoin` | squirrel/sqbaselib.cpp:1827-1884 | the joined text |
| `StringLib.LengthSum` | squirrel/sqbaselib.cpp:1845-1881 | the precomputed length is the length of the joined text |
| `StringLib.MakeRoom` | squirrel/sqbaselib.cpp:1661-1672 | the tail moved behind a gap of the right size, the front kept, the buffer grown if needed |
| `StringLib.ReplaceAt` | squirrel/sqbaselib.cpp:1661-1681 | one in-place replacement is the corresponding splice |
| `StringLib.ReplaceAll` | squirrel/sqbaselib.cpp:1661-1681 | the in-place loop computes the left-to-right replacement |
| `StringLib.ReplaceIsSplitJoin` | squirrel/sqbaselib.cpp:1661-1681 | left-to-right replacement is splitting on the old text and joining with the new |
| `StringLib.StringReplace` | squirrel/sqbaselib.cpp:1786-1809 | the result is the joined split, for texts without NUL the one string.split gives |
| `StringLib.StrictOrNot` | squirrel/sqbaselib.cpp:1935-1955 | without NULs the two comparisons split alike |
| `ModuleLoader.SqModules.CheckCircular` | sqmodules/sqmodules.cpp:122-139 | refuses exactly the running scripts |
| `ModuleLoader.SqModules.SetupStateStorage` | sqmodules/sqmodules.cpp:229-238 | the previous generation's table where it had the file, else a new one, in either case one that no loaded module has |
| `ModuleLoader.SqModules.ImportModules` | sqmodules/sqmodules.cpp:356-457 | the running list is restored on every path; success leaves every import line served; for files without guarded calls it succeeds exactly when every line would |
| `ModuleLoader.SqModules.Require` | sqmodules/sqmodules.cpp:460-578 | over any finite set of files it ends; running scripts stay duplicate-free and are restored, each file is loaded at most once and never while it runs, modules are listed after everything they import, storage is kept and shared by no two modules, exports are a value the file's own script returns; and exactly what it answers in each case |
| `ModuleLoader.OneValue` | sqmodules/sqmodules.cpp:552-561 | a script that guards no require returns one value at most, so its exports are determined |
| `ModuleLoader.SqModules.EndRun` | sqmodules/sqmodules.cpp:537-578 | what this run of the script returned becomes the module's exports, with its storage and after everything it needs |
| `ModuleLoader.SqModules.Load` | sqmodules/sqmodules.cpp:481-578 | the file is loaded exactly when it parses, imports, compiles and runs, and its exports are what its script returned |
| `ModuleLoader.SqModules.ScriptRequire` | sqmodules/sqmodules.cpp:666-708 | a script's own require(): the list of native modules, a forbidden name, a native module and a name that no script may answer are settled without loading; everything else is requireModule's answer |
| `ModuleLoader.SqModules.RequireFromHost` | sqmodules/sqmodules.cpp:460-578 | without guarded calls, a require succeeds exactly when some order exists in which the file and all it needs can be loaded one after the other |
| `ModuleLoader.OrderedIsGood` | sqmodules/sqmodules.cpp:460-578 | a file of such an order loads under any running scripts outside that order |
| `ModuleLoader.NeededIsBefore` | sqmodules/sqmodules.cpp:460-578 | what a file imports, or requires in front of any guarded call, is loaded before it |
| `ModuleLoader.CycleHasNoSchedule` | sqmodules/sqmodules.cpp:122-139 | a file on or in front of a cycle of imports and unguarded require() calls has no such order, so it is refused |
| `ModuleLoader.SqModules.ReloadAll` | sqmodules/sqmodules.cpp:599-624 | every file of the new generation that was loaded before keeps its state storage; success means all old files are loaded again, and without guarded calls it succeeds if and only if each old file would load, each that would being loaded; the running list is as before |

## Left out

- The compiler, parser, optimizer and static analyzer, the opcode switch outside the fragments named above, Sqrat bindings, file and console I/O, date, system and debug libraries: plumbing, or members that would only be easy.
- Bytecode Save and Load: the layouts of writer and reader disagree (squirrel/sqobject.cpp:477 and 553), so there is no round trip.
- Hash functions and masks are arbitrary functions into the array; that the hash of an object is stable is part of that.
- Weak references in table and instance values: a stored value is read back as it was stored.
- Array sizes over 32 bits and allocation failure, in all structures.
- Tables.Table.GetNodeFromTypeHint: the mismatch assertions of a debug build are the null result of a release build.
- Classes.Instruction.Create: assumes that classes have different ids, that is, that no class address is reused while a hint word may name it.
- Classes.Class.Lock: the script hook is its answer only; what it does to the class before the id is set is not modelled.
- The memory of native fields: only their descriptors.
- Gc.SharedState.Mark: what each Mark function visits is a given list of edges per object.
- Gc.SharedState.RunMark: what each Mark function visits is a given list of edges per object; the roots are a given list.
- The sweep with its finalizers and release hooks: foreign callbacks.
- Serializers.Serializer.DeserializeObject: without instances, whose reading runs script code; their tag is a failure here.
- Instances in the writer and the numbering of their classes; 64-bit floats.
- Rex.MatchNodeSound: the converse is false by design; through the language alone it is exact for choice-free patterns and for one alternation or repetition of choice-free parts, and for all patterns against the derivations of `RexChoices`.
- RexCaptures.TidySpans: no group inside a repetition or an alternation; for those, which match of the group is captured is what `RexMachine.Machine.RunNode` says and no more.
- SerialShortest.RefShortest: a short string repeated after 65536 others would be shorter if written again.
- HeapSort.Sorter.Compare: sort with a function; without one the code compares objects directly, and a _cmp metamethod that resizes the array meanwhile is not checked for (squirrel/sqbaselib.cpp:1393-1396).
- Generators.YieldThenResume: for a frame that starts at or below its caller's top, as calls build it.
- Generators.Generator.Yield: for a frame whose outers are closed, as the yield instruction does before.
- The instruction pointers of frames and traps are carried along and not interpreted.
- StringLib.StringJoin: without the filter argument and the conversion of items to strings.
- string.split without a separator: an easy member.
- ModuleLoader.SqModules.RequireFromHost: exact for scripts that do not catch a failing require; with such scripts the answer depends on what was loaded before, and the other clauses of `Require` still hold.
- ModuleLoader.SqModules.ReloadAll: files change only at a reload; with guarded calls a file that fails first and is loaded later through another one still counts as a failure, so there success is stated in one direction.
- ModuleLoader.SqModules.ImportModules: whether a line's bindings can be merged is given with the line.
- Script bodies in the module loader are finite trees of require calls; what else a script does, the bindings merged by imports, file reading and unload handlers are results given with the file.
- RefTables.RefTable.AddRef: for objects other than null, since a null object is what marks a free node.
- StringTables.StringTable.Remove: for a live string, as the source asserts.
