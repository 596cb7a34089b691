# family_tree.cc in Dafny

A model of `family_tree.cc`, a small C++ program. It builds a binary family tree from one
string of pipe-delimited records and prints it. Each record is `parent_id,node_id,name`, and
the root's parent field is the word `null`. A member is attached under the first node, in
pre-order, whose id is its parent id. It takes the left child slot if that slot is free,
otherwise the right one. A third child aborts the build.

The model is in eight modules, one per part of the program:

| file | module | models |
|---|---|---|
| `wrappers.dfy` | `Wrappers` | `Option` and `Result` |
| `delimited.dfy` | `Delimited` | the two `find`/`substr` splitting loops, and joining, their inverse |
| `decimal.dfy` | `Decimal` | `std::stoi` in base 10, and `cout << int` |
| `family_tree.dfy` | `FamilyTree` | `FamilyTreeNode` as an immutable tree, pointer writes as grafts at a path, `findFamilyMemberParent` |
| `record.dfy` | `Record` | `createFamilyMember`: one record into a member, and the encoding that inverts it |
| `builder.dfy` | `Builder` | `insertFamilyMember` and `createFamilyTree` |
| `printer.dfy` | `Printer` | `printFamilyTree`, returning its lines instead of writing them |
| `driver.dfy` | `Driver` | `main`'s input and what it builds, plus the edge-case scenarios |

Modelling choices:

- A null `FamilyTreeNode*` is the tree `Nil`. A node is `Node(member, left, right)`.
- `parent->left = member_node` is `Graft(t, p + [Left], Leaf(m))`. Here `p` is the path
  `FindPath` returns to the node `findFamilyMemberParent` finds.
- The root sentinel is `NoParent == -1`, the C++ value. A parent field `-1` therefore reads
  exactly like `null`.
- `string::npos` is the string's length.
- `createFamilyTree` returns `NULL` in several cases; each becomes one result:
  - empty input: `Success(Nil)`;
  - root with a parent: `Failure(RootHasParent)`;
  - failed insertion: `Failure(TooManyChildren(i))`, where `i` is the record's index.
- A record with fewer than three fields is undefined behaviour in C++ (it reads past the
  end of its field vector). A field `stoi` rejects throws an exception. Both become a
  `Failure` naming the field. The first such problem, in the order C++ evaluates its
  expressions, is the one reported.

The model keeps the program's behaviour in these places:

- A record whose parent is not in the tree is silently dropped, and the build still
  succeeds.
- Duplicate ids are accepted. A child goes under the first match in pre-order.
- The sentinel is the integer `-1`, not a separate "absent" value.

## Model

| member | source | states |
|---|---|---|
| Delimited.SplitLoop | family_tree.cc:49-59 | The splitting loop yields at least one piece. No piece holds the delimiter. Joining the pieces with the delimiter gives back the input, and they are exactly `Split(s, d)`. |
| Delimited.FindCharIsFirst | family_tree.cc:51-57 | `find` stops at the first occurrence: no delimiter lies between the start position and the index it returns. |
| Delimited.JoinSplit | family_tree.cc:141-151 | Joining the records the loop cuts out of `members` restores `members`, and no record contains `|`. |
| Delimited.SplitJoin | family_tree.cc:141-151 | For at least one piece and no piece holding the delimiter, splitting the joined string gives back exactly the pieces. |
| Delimited.SplitAppend | family_tree.cc:54-59 | Splitting `a + d + b` gives the pieces of `a` followed by the pieces of `b`. |
| Delimited.PieceCount | family_tree.cc:146-155 | The number of pieces is the number of delimiters plus one, so the `members_list.size() == 0` test can never succeed. |
| Decimal.Stoi | family_tree.cc:61-62 | A successful conversion yields a value in the 32-bit int range. |
| Decimal.IntToString | family_tree.cc:182-184 | What `cout << n` writes is never empty and starts with a digit or a minus sign, and with a minus sign exactly when `n` is negative. |
| Decimal.StoiIntToString | family_tree.cc:182-184 | `stoi` reads back what `cout << n` writes for any int `n`, whatever follows, provided what follows does not begin with a digit. |
| Decimal.NullIsNotANumber | family_tree.cc:61 | `stoi("null")` fails with `invalid_argument`, which is why the word is tested before conversion. |
| Record.Decode | family_tree.cc:46-63 | Decoding succeeds exactly when there are at least three fields, the parent field is `null` or a number, and the id field is a number. On success: the name is field 2 verbatim, the id is `stoi` of field 1, and the parent is the sentinel exactly when field 0 is `null` or reads as -1. |
| Record.DecodeEncode | family_tree.cc:46-63 | Decoding the text written for a member gives back the member, for int-range ids and a name without a comma. |
| Record.EncodeDecode | family_tree.cc:46-63 | A three-field record whose numbers are written as `cout` writes them is re-created character for character by encoding its decoding. |
| Record.DecodeIgnoresExtraFields | family_tree.cc:54-63 | Text after a record's third field never changes its decoding. |
| Record.MinusOneIsNull | family_tree.cc:61 | A record whose parent field is `-1` decodes exactly as one whose parent field is `null`, that is, as a root. |
| Record.ParentFieldText | family_tree.cc:179-182 | Reading back the parent text the printer writes (`null` or a number) gives the parent id. |
| FamilyTree.Find | family_tree.cc:79-95 | The search finds nothing exactly when no node has the id. Otherwise it returns a node carrying that id. |
| FamilyTree.FindPath | family_tree.cc:79-95 | The path-returning search answers exactly when `Find` does. Its path reaches a node with the id. |
| FamilyTree.FindIsFirstInPreOrder | family_tree.cc:85-94 | The node found is the pre-order node at the first position of the id in the pre-order id list. |
| FamilyTree.FindAtFindPath | family_tree.cc:89-94 | The node `Find` returns is the node at the path `FindPath` returns. |
| FamilyTree.GraftLabelAt | family_tree.cc:115-118 | A pointer write at `p` changes what is under `p` and nothing at any position outside it. |
| FamilyTree.GraftLeaf | family_tree.cc:116-118 | Writing a new node into an empty child slot adds exactly that node: the size grows by one, and the members and ids grow by it. |
| FamilyTree.GraftLinked | family_tree.cc:114-118 | Hanging a linked subtree under a node whose id is its root's parent id keeps every child's parent id equal to its parent's id. |
| Builder.Attach | family_tree.cc:112-123 | No parent is found exactly when no node carries the member's parent id. The parent is full exactly when the found node has two children. |
| Builder.AttachPlacesLeaf | family_tree.cc:114-118 | A successful attach writes the member into a slot that was empty, under the node the search found, whose id is the parent id. It takes the left slot exactly when the left slot was free. |
| Builder.AttachUnderFirstMatch | family_tree.cc:112-116 | With duplicate ids, the member goes under the first node in pre-order that carries its parent id. |
| Builder.AttachChangesOnlySlot | family_tree.cc:115-118 | Every position other than the new slot holds the same member, or the same absence, as before. |
| Builder.AttachAddsOne | family_tree.cc:114-118 | The size grows by one, and the multisets of members and ids grow by exactly the new member. |
| Builder.AttachKeepsLinked | family_tree.cc:112-118 | If every child's parent id matched its parent's id before, it still does. |
| Builder.AttachKeepsRoot | family_tree.cc:112-118 | The root node and its member stay in place. |
| Builder.InsertFamilyMember | family_tree.cc:108-126 | Three iff conditions: the insert fails as malformed exactly when decoding fails; the tree comes back unchanged exactly when the decoded parent is absent (the silent drop); it fails with `ParentHasTwoChildren` exactly when the parent is full. Any other success is the attach. |
| Builder.InsertStep | family_tree.cc:108-126 | One successful insertion keeps the root and the parent links and adds at most one node, and that node is the decoded record. |
| Builder.InsertAll | family_tree.cc:164-168 | The loop fails only at a record index at or after its start. A `MalformedRecord` index names a record that does not decode. A `TooManyChildren` index names one that does. |
| Builder.InsertAllKeeps | family_tree.cc:164-170 | A successful loop keeps the root's member and the parent links and adds at most one node per record. |
| Builder.InsertAllFromRecords | family_tree.cc:164-170 | Every member of the result was already in the tree or is the decoding of one of the records. |
| Builder.CreateFamilyTree | family_tree.cc:135-171 | Empty input gives the empty tree. `RootHasParent` occurs exactly when the first record decodes with a parent. A malformed-record error names a record that does not decode. |
| Builder.BuiltTreeShape | family_tree.cc:157-170 | A built tree has the first record as its root, with no parent. Every child's parent id is its parent's id. It has between one and (number of records) nodes, and each node is the decoding of a record. |
| Builder.InsertAllFailsAt | family_tree.cc:164-167 | A loop that fails at record `i` inserted every record before `i` without trouble, building a tree `before`. Inserting record `i` into `before` fails, and for `TooManyChildren` record `i` decodes and its parent already has two children in `before`. |
| Builder.CreateFamilyTreeFailsAt | family_tree.cc:157-168 | A build that fails with `TooManyChildren(i)` had a root record and inserted records 1 to `i - 1`. Record `i`'s parent already has two children in the tree those records build. |
| Builder.InsertAllDecoded | family_tree.cc:164-168 | On records that all decode, the string loop equals the member-level loop `AttachAll` on the decoded members. |
| Builder.AttachAllKeepsEvery | family_tree.cc:164-170 | If every member's parent is in the tree or is an earlier member, the member-level loop drops nobody: the new nodes are exactly the members. |
| Builder.InsertAllKeepsEvery | family_tree.cc:164-170 | If every record decodes and every parent is in the tree or comes earlier, a successful loop adds one node per record, and the new nodes are exactly the decoded records. |
| Builder.BuiltTreeKeepsEvery | family_tree.cc:157-170 | If every record decodes and every parent comes before its children, a built tree has as many nodes as there are records, and its members are exactly the decoded records. |
| Builder.InsertAllEncoded | family_tree.cc:164-168 | On records written from members, the string loop is exactly the member-level loop `AttachAll`. |
| Builder.CreateFamilyTreeEncoded | family_tree.cc:135-171 | On input written from members, `createFamilyTree` equals the member-level `Build`. |
| Printer.Print | family_tree.cc:173-189 | The printout has four lines per node, so an empty tree prints nothing. |
| Printer.PrintIsPreOrder | family_tree.cc:173-189 | The printout is the block of each member in pre-order. |
| Printer.PrintBlock | family_tree.cc:179-188 | Lines `4i` to `4i + 3` are the block of the `i`-th member in pre-order. |
| Printer.ParentLineNull | family_tree.cc:179-183 | The parent line reads `Parent id: null` exactly when the parent id is the sentinel. |
| Printer.ReadBlockBlock | family_tree.cc:179-185 | A printed block reads back as the member that printed it, for int-range ids. |
| Printer.ReadPrint | family_tree.cc:173-189 | Reading the whole printout back gives the tree's members in pre-order. |
| Driver.MainBuildsFamily | family_tree.cc:196-197 | `main`'s input builds the expected seven-node tree. |
| Driver.FamilyPreOrder | family_tree.cc:196-198 | The tree `main` builds has the pre-order ids 0, 1, 3, 4, 2, 5, 6. |
| Driver.FamilyParentsFirst | family_tree.cc:196 | In `main`'s input every parent comes before its children, so `Builder.BuiltTreeKeepsEvery` applies to it. |
| Driver.OrphanIsDropped | family_tree.cc:112-125 | A record whose parent is absent is dropped, and the build succeeds. |
| Driver.ThirdChildFails | family_tree.cc:115-121 | A third child under one parent aborts the build at that record. |
| Driver.FirstRecordMustBeRoot | family_tree.cc:159-162 | A list whose only member `0,1,x` names a parent fails the build with `RootHasParent`. |
| Driver.DuplicateIdUsesFirstMatch | family_tree.cc:85-94 | With two nodes of id 1, a child of 1 goes under the first one in pre-order. |

## Left out

- Output: `cout` is not modelled. `printFamilyTree` returns its lines, and the "More that TWO children" message becomes the `ParentHasTwoChildren` error.
- Memory: pointers, `new`, and the nodes that are leaked are not modelled. The tree is an immutable value.
- Undefined behaviour: indexing `member_info[1]` or `[2]` past the end becomes the explicit `MissingField` error.
- Exceptions: the `stoi` exceptions (`invalid_argument`, `out_of_range`) become `BadNumber` errors instead of terminating the program.
- Decimal.Stoi: its contract states only that a result lies in the int range. Its parsing is stated by `Decimal.StoiIntToString` (every number `cout` writes reads back) and `Decimal.NullIsNotANumber`, not as a full characterisation. The body follows `stoi` in base 10 in the C locale: white space skipped, an optional sign, at least one digit, trailing text ignored, and out of int range rejected. Other `stoi` parameters and locales are not modelled.
- Recursion depth: the recursive search and print have no stack limit in the model.
- Types: `size_t` and `int` are unbounded in the model. Ids are the 32-bit range only where they pass through `stoi`.
- `main`'s printed text is not stated line by line. `Driver.FamilyPreOrder` with `Printer.PrintBlock` gives it block by block.
