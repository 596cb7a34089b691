/** `insertFamilyMember` and `createFamilyTree`: building the tree one record
    at a time. */
module Builder {
  import opened Wrappers
  import opened Delimited
  import opened Decimal
  import opened FamilyTree
  import opened Record

  const RecordDelimiter: char := '|'

  /** What attaching a member to the tree comes to. */
  datatype Attachment = Attached(tree: Tree) | NoParentFound | ParentFull

  /** The child slot a new member takes under `parent`: the left one if it is
      free, otherwise the right one, otherwise none. */
  function FreeSlot(parent: Tree): Option<Dir>
    requires parent.Node?
  {
    if parent.left.Nil? then Some(Left)
    else if parent.right.Nil? then Some(Right)
    else None
  }

  /** The body of `insertFamilyMember` once the record is decoded: locate the
      parent, then write the first free child pointer. */
  function Attach(t: Tree, m: Member): (r: Attachment)
    ensures r.NoParentFound? <==> m.parentId !in Ids(t)
    ensures r.ParentFull? <==>
              var found := Find(t, m.parentId);
              found.Some? && found.value.left.Node? && found.value.right.Node?
  {
    FindAtFindPath(t, m.parentId);
    match FindPath(t, m.parentId)
    case None => NoParentFound
    case Some(p) =>
      match FreeSlot(Subtree(t, p))
      case Some(d) => Attached(Graft(t, p + [d], Leaf(m)))
      case None => ParentFull
  }

  /** Where `Attach` puts `m`: the free slot of the first node in pre-order
      whose id is `m`'s parent id. */
  function SlotFor(t: Tree, m: Member): Path
    requires Attach(t, m).Attached?
  {
    var p := FindPath(t, m.parentId).value;
    p + [FreeSlot(Subtree(t, p)).value]
  }

  /** A successful attach writes the new member into a slot that was
      empty, under the node the locator found, which is the member's parent. */
  lemma AttachPlacesLeaf(t: Tree, m: Member)
    requires Attach(t, m).Attached?
    ensures var slot := SlotFor(t, m);
            var p := slot[..|slot| - 1];
            && Reach(t, slot)
            && Find(t, m.parentId) == Some(Subtree(t, p))
            && Subtree(t, p).member.nodeId == m.parentId
            && (Subtree(t, p).left.Nil? <==> slot[|slot| - 1] == Left)
            && Subtree(t, slot) == Nil
            && Subtree(Attach(t, m).tree, slot) == Leaf(m)
  {
    var p := FindPath(t, m.parentId).value;
    var d := FreeSlot(Subtree(t, p)).value;
    var slot := p + [d];
    assert slot[..|slot| - 1] == p;
    FindAtFindPath(t, m.parentId);
    ReachExtend(t, p, d);
    GraftLabelAt(t, slot, Leaf(m), slot);
    assert slot[..|slot|] == slot && slot[|slot|..] == [];
  }

  /** With duplicate ids, the new member goes under the first node in
      pre-order that carries its parent id. */
  lemma AttachUnderFirstMatch(t: Tree, m: Member)
    requires Attach(t, m).Attached?
    ensures var slot := SlotFor(t, m);
            Subtree(t, slot[..|slot| - 1]) == PreOrder(t)[IndexOf(Ids(t), m.parentId)]
  {
    AttachPlacesLeaf(t, m);
    FindIsFirstInPreOrder(t, m.parentId);
  }

  /** Nothing but the new slot changes: at every other position the tree
      holds the same member, or the same absence of one, as before. */
  lemma AttachChangesOnlySlot(t: Tree, m: Member)
    requires Attach(t, m).Attached?
    ensures forall q :: q != SlotFor(t, m) ==> LabelAt(Attach(t, m).tree, q) == LabelAt(t, q)
  {
    var slot := SlotFor(t, m);
    var t' := Attach(t, m).tree;
    AttachPlacesLeaf(t, m);
    forall q | q != slot
      ensures LabelAt(t', q) == LabelAt(t, q)
    {
      GraftLabelAt(t, slot, Leaf(m), q);
      if |slot| <= |q| && q[..|slot|] == slot {
        var rest := q[|slot|..];
        assert q == slot + rest;
        SubtreeAppend(t, slot, rest);
        assert Subtree(Leaf(m), rest) == Nil by {
          assert rest != [];
          SubtreeOfNil(rest[1..]);
        }
      }
    }
  }

  /** A successful attach adds exactly one node, the new member. */
  lemma AttachAddsOne(t: Tree, m: Member)
    requires Attach(t, m).Attached?
    ensures var t' := Attach(t, m).tree;
            && Size(t') == Size(t) + 1
            && multiset(Labels(t')) == multiset(Labels(t)) + multiset{m}
            && multiset(Ids(t')) == multiset(Ids(t)) + multiset{m.nodeId}
  {
    AttachPlacesLeaf(t, m);
    GraftLeaf(t, SlotFor(t, m), m);
  }

  /** Attaching keeps every child pointing at its parent: the new node's
      `parent_id` is the id of the node it now hangs from. */
  lemma AttachKeepsLinked(t: Tree, m: Member)
    requires Attach(t, m).Attached? && Linked(t)
    ensures Linked(Attach(t, m).tree)
  {
    var p := FindPath(t, m.parentId).value;
    var d := FreeSlot(Subtree(t, p)).value;
    GraftLinked(t, p, d, Leaf(m));
  }

  /** Attaching under a node somewhere below the root leaves the root's own
      member in place. */
  lemma AttachKeepsRoot(t: Tree, m: Member)
    requires Attach(t, m).Attached?
    ensures t.Node? && Attach(t, m).tree.Node? && Attach(t, m).tree.member == t.member
  {
  }

  /** Why one insertion fails. */
  datatype InsertError = MalformedMember(error: DecodeError) | ParentHasTwoChildren

  /** `insertFamilyMember`. `Success` is the C++ `true`, with the tree as it
      is afterwards; `ParentHasTwoChildren` is the `false` that follows the
      "More that TWO children" message; a record whose parent is nowhere in
      the tree is dropped and still reported as a success. */
  function InsertFamilyMember(root: Tree, rec: string): (r: Result<Tree, InsertError>)
    ensures r.Failure? && r.error.MalformedMember? <==> Decode(rec).Failure?
    ensures r == Success(root) <==>
              Decode(rec).Success? && Decode(rec).value.parentId !in Ids(root)
    ensures r == Failure(ParentHasTwoChildren) <==>
              Decode(rec).Success? && Attach(root, Decode(rec).value).ParentFull?
    ensures r.Success? && r.value != root ==>
              Decode(rec).Success? && Attach(root, Decode(rec).value) == Attached(r.value)
  {
    match Decode(rec)
    case Failure(e) => Failure(MalformedMember(e))
    case Success(m) =>
      match Attach(root, m)
      case Attached(t) =>
        // the new tree has one more node, so it is not `root`
        AttachAddsOne(root, m);
        Success(t)
      case NoParentFound => Success(root)
      case ParentFull => Failure(ParentHasTwoChildren)
  }

  /** One successful insertion keeps the root's member and the parent
      links, adds at most one node, and that node is the decoded record. */
  lemma InsertStep(t: Tree, rec: string)
    requires InsertFamilyMember(t, rec).Success?
    ensures var t' := InsertFamilyMember(t, rec).value;
            && Size(t) <= Size(t') <= Size(t) + 1
            && (t.Node? ==> t'.Node? && t'.member == t.member)
            && (Linked(t) ==> Linked(t'))
            && forall m | m in multiset(Labels(t')) :: m in multiset(Labels(t)) || Decode(rec) == Success(m)
  {
    var t' := InsertFamilyMember(t, rec).value;
    if t' != t {
      var m := Decode(rec).value;
      AttachAddsOne(t, m);
      AttachKeepsRoot(t, m);
      if Linked(t) { AttachKeepsLinked(t, m); }
    }
  }

  /** Why the whole build fails. `index` is the position of the offending
      record in the input. */
  datatype BuildError =
    | RootHasParent
    | MalformedRecord(index: nat, error: DecodeError)
    | TooManyChildren(index: nat)

  /** The `for` loop of `createFamilyTree`: insert `recs[idx..]` in order,
      stopping at the first failure. */
  function InsertAll(t: Tree, recs: seq<string>, idx: nat): (r: Result<Tree, BuildError>)
    requires idx <= |recs|
    ensures r.Failure? ==> r.error.MalformedRecord? || r.error.TooManyChildren?
    ensures r.Failure? && r.error.MalformedRecord? ==>
              idx <= r.error.index < |recs| && Decode(recs[r.error.index]).Failure?
    ensures r.Failure? && r.error.TooManyChildren? ==>
              idx <= r.error.index < |recs| && Decode(recs[r.error.index]).Success?
    decreases |recs| - idx
  {
    if idx == |recs| then Success(t)
    else
      match InsertFamilyMember(t, recs[idx])
      case Failure(MalformedMember(e)) => Failure(MalformedRecord(idx, e))
      case Failure(ParentHasTwoChildren) => Failure(TooManyChildren(idx))
      case Success(t') => InsertAll(t', recs, idx + 1)
  }

  /** What the loop keeps: the root's member, the parent links, and a node
      count between the start and one more per record. */
  lemma {:induction false} InsertAllKeeps(t: Tree, recs: seq<string>, idx: nat)
    requires idx <= |recs| && InsertAll(t, recs, idx).Success?
    ensures var t' := InsertAll(t, recs, idx).value;
            && Size(t) <= Size(t') <= Size(t) + (|recs| - idx)
            && (t.Node? ==> t'.Node? && t'.member == t.member)
            && (Linked(t) ==> Linked(t'))
    decreases |recs| - idx
  {
    if idx < |recs| {
      InsertStep(t, recs[idx]);
      InsertAllKeeps(InsertFamilyMember(t, recs[idx]).value, recs, idx + 1);
    }
  }

  /** Every member in the loop's result was already in the tree or is the
      decoding of one of the records it was given. */
  lemma {:induction false} InsertAllFromRecords(t: Tree, recs: seq<string>, idx: nat)
    requires idx <= |recs| && InsertAll(t, recs, idx).Success?
    ensures forall m | m in multiset(Labels(InsertAll(t, recs, idx).value)) ::
              m in multiset(Labels(t)) || exists j | idx <= j < |recs| :: Decode(recs[j]) == Success(m)
    decreases |recs| - idx
  {
    if idx < |recs| {
      var next := InsertFamilyMember(t, recs[idx]).value;
      InsertStep(t, recs[idx]);
      InsertAllFromRecords(next, recs, idx + 1);
    }
  }

  /** The same loop stopped before record `stop`: the records from `idx` to
      `stop - 1` only. */
  function InsertRange(t: Tree, recs: seq<string>, idx: nat, stop: nat): Result<Tree, BuildError>
    requires idx <= stop <= |recs|
    decreases stop - idx
  {
    if idx == stop then Success(t)
    else
      match InsertFamilyMember(t, recs[idx])
      case Failure(MalformedMember(e)) => Failure(MalformedRecord(idx, e))
      case Failure(ParentHasTwoChildren) => Failure(TooManyChildren(idx))
      case Success(t') => InsertRange(t', recs, idx + 1, stop)
  }

  /** The loop stops at the first record it cannot insert. The records
      before it all go in, building `before`; inserting the record into
      `before` fails; and a `TooManyChildren` record names a parent that is
      already full in `before`. */
  lemma {:induction false} InsertAllFailsAt(t: Tree, recs: seq<string>, idx: nat) returns (before: Tree)
    requires idx <= |recs| && InsertAll(t, recs, idx).Failure?
    ensures var i := InsertAll(t, recs, idx).error.index;
            && idx <= i < |recs|
            && InsertRange(t, recs, idx, i) == Success(before)
            && InsertFamilyMember(before, recs[i]).Failure?
            && (InsertAll(t, recs, idx).error.TooManyChildren? ==>
                  Decode(recs[i]).Success? && Attach(before, Decode(recs[i]).value).ParentFull?)
    decreases |recs| - idx
  {
    if InsertFamilyMember(t, recs[idx]).Success? {
      before := InsertAllFailsAt(InsertFamilyMember(t, recs[idx]).value, recs, idx + 1);
    } else {
      before := t;
    }
  }

  /** `createFamilyTree`. The empty string gives the empty tree (the C++
      NULL, which is not an error); any other NULL return is a `Failure`. */
  function CreateFamilyTree(members: string): (r: Result<Tree, BuildError>)
    ensures members == [] ==> r == Success(Nil)
    ensures r == Failure(RootHasParent) <==>
              var recs := Split(members, RecordDelimiter);
              members != [] && Decode(recs[0]).Success? && Decode(recs[0]).value.parentId != NoParent
    ensures r.Failure? && r.error.MalformedRecord? ==>
              r.error.index < |Split(members, RecordDelimiter)|
              && Decode(Split(members, RecordDelimiter)[r.error.index]).Failure?
  {
    if members == [] then Success(Nil)
    else
      // Split never returns an empty list, so the C++ test
      // `members_list.size() == 0` has no counterpart here.
      var recs := Split(members, RecordDelimiter);
      match Decode(recs[0])
      case Failure(e) => Failure(MalformedRecord(0, e))
      case Success(root) =>
        if root.parentId != NoParent then Failure(RootHasParent)
        else InsertAll(Leaf(root), recs, 1)
  }

  /** A tree that is built is rooted at the first record, which has no
      parent; every child names its parent; there is at most one node per
      record; and every node is one of the records. */
  lemma BuiltTreeShape(members: string)
    requires members != [] && CreateFamilyTree(members).Success?
    ensures var t, recs := CreateFamilyTree(members).value, Split(members, RecordDelimiter);
            && t.Node?
            && Decode(recs[0]) == Success(t.member)
            && t.member.parentId == NoParent
            && Linked(t)
            && 1 <= Size(t) <= |recs|
            && forall m | m in multiset(Labels(t)) :: exists j | 0 <= j < |recs| :: Decode(recs[j]) == Success(m)
  {
    var recs := Split(members, RecordDelimiter);
    var root := Decode(recs[0]).value;
    assert Linked(Leaf(root));
    InsertAllKeeps(Leaf(root), recs, 1);
    InsertAllFromRecords(Leaf(root), recs, 1);
    assert Labels(Leaf(root)) == [root];
  }

  /** A build that fails with `TooManyChildren(i)` inserted records 1 to
      `i - 1` without trouble, building `before`, and record `i`'s parent
      already has two children in `before`. */
  lemma CreateFamilyTreeFailsAt(members: string) returns (before: Tree)
    requires CreateFamilyTree(members).Failure? && CreateFamilyTree(members).error.TooManyChildren?
    ensures var recs, i := Split(members, RecordDelimiter), CreateFamilyTree(members).error.index;
            && members != []
            && Decode(recs[0]).Success?
            && 1 <= i < |recs|
            && InsertRange(Leaf(Decode(recs[0]).value), recs, 1, i) == Success(before)
            && Decode(recs[i]).Success?
            && Attach(before, Decode(recs[i]).value).ParentFull?
  {
    var recs := Split(members, RecordDelimiter);
    before := InsertAllFailsAt(Leaf(Decode(recs[0]).value), recs, 1);
  }

  /** The same loop over members that are already decoded: what the builder
      does once parsing is out of the way. */
  function AttachAll(t: Tree, ms: seq<Member>, idx: nat): Result<Tree, BuildError>
    requires idx <= |ms|
    decreases |ms| - idx
  {
    if idx == |ms| then Success(t)
    else
      match Attach(t, ms[idx])
      case ParentFull => Failure(TooManyChildren(idx))
      case NoParentFound => AttachAll(t, ms, idx + 1)
      case Attached(t') => AttachAll(t', ms, idx + 1)
  }

  /** Building from a non-empty list of decoded members. */
  function Build(ms: seq<Member>): Result<Tree, BuildError>
    requires |ms| >= 1
  {
    if ms[0].parentId != NoParent then Failure(RootHasParent)
    else AttachAll(Leaf(ms[0]), ms, 1)
  }

  /** Walking the members from `idx`, each one's parent id is among `known`,
      the ids placed so far, and then its own id joins them. */
  predicate ParentsKnown(known: multiset<int>, ms: seq<Member>, idx: nat)
    decreases |ms| - idx
  {
    idx >= |ms| || (ms[idx].parentId in known && ParentsKnown(known + multiset{ms[idx].nodeId}, ms, idx + 1))
  }

  /** Every member from `idx` on has its parent already in `t` or among the
      members before it. `main`'s input is of this kind. */
  predicate ParentsFirst(t: Tree, ms: seq<Member>, idx: nat)
  {
    ParentsKnown(multiset(Ids(t)), ms, idx)
  }

  /** When every parent comes before its child, the member-level loop drops
      nobody: the new nodes are exactly the members. */
  lemma {:induction false} AttachAllKeepsEvery(t: Tree, ms: seq<Member>, idx: nat)
    requires idx <= |ms| && AttachAll(t, ms, idx).Success? && ParentsFirst(t, ms, idx)
    ensures multiset(Labels(AttachAll(t, ms, idx).value)) == multiset(Labels(t)) + multiset(ms[idx..])
    decreases |ms| - idx
  {
    if idx < |ms| {
      var t' := KeepsEveryStep(t, ms, idx);
      AttachAllKeepsEvery(t', ms, idx + 1);
      SuffixCount(ms, idx);
      AddInTurn(multiset(Labels(AttachAll(t', ms, idx + 1).value)), multiset(Labels(t')),
                multiset(Labels(t)), ms[idx], multiset(ms[idx + 1..]), multiset(ms[idx..]));
    }
  }

  /** One turn of the member loop under `ParentsFirst`: the member's parent
      is in the tree, so it is attached, and the rest still qualify. */
  lemma KeepsEveryStep(t: Tree, ms: seq<Member>, idx: nat) returns (t': Tree)
    requires idx < |ms| && AttachAll(t, ms, idx).Success? && ParentsFirst(t, ms, idx)
    ensures AttachAll(t', ms, idx + 1) == AttachAll(t, ms, idx)
    ensures multiset(Labels(t')) == multiset(Labels(t)) + multiset{ms[idx]}
    ensures ParentsFirst(t', ms, idx + 1)
  {
    assert ms[idx].parentId in multiset(Ids(t));
    t' := Attach(t, ms[idx]).tree;
    AttachAddsOne(t, ms[idx]);
  }

  /** Adding `x` and then the rest is adding `x` together with the rest. */
  lemma AddInTurn<T>(after: multiset<T>, mid: multiset<T>, before: multiset<T>, x: T,
                     rest: multiset<T>, all: multiset<T>)
    requires after == mid + rest && mid == before + multiset{x} && all == multiset{x} + rest
    ensures after == before + all
  {
  }

  /** Counting the first element and then the rest counts the whole. */
  lemma FirstThenRest<T>(all: multiset<T>, first: multiset<T>, s: seq<T>)
    requires |s| >= 1 && first == multiset{s[0]} && all == first + multiset(s[1..])
    ensures all == multiset(s)
  {
    assert s == [s[0]] + s[1..];
  }

  /** A suffix counts its first element and the suffix after it. */
  lemma SuffixCount<T>(s: seq<T>, i: nat)
    requires i < |s|
    ensures multiset(s[i..]) == multiset{s[i]} + multiset(s[i + 1..])
  {
    assert s[i..] == [s[i]] + s[i + 1..];
  }

  /** Every record from `idx` on decodes, to the member at the same index. */
  predicate DecodesTo(recs: seq<string>, ms: seq<Member>, idx: nat)
    requires |recs| == |ms|
    decreases |recs| - idx
  {
    idx >= |recs| || (Decode(recs[idx]) == Success(ms[idx]) && DecodesTo(recs, ms, idx + 1))
  }

  /** On records that decode to `ms`, the string loop is the member loop. */
  lemma {:induction false} InsertAllDecoded(t: Tree, recs: seq<string>, ms: seq<Member>, idx: nat)
    requires idx <= |recs| == |ms|
    requires DecodesTo(recs, ms, idx)
    ensures InsertAll(t, recs, idx) == AttachAll(t, ms, idx)
    decreases |recs| - idx
  {
    if idx < |recs| && !Attach(t, ms[idx]).ParentFull? {
      var next := if Attach(t, ms[idx]).Attached? then Attach(t, ms[idx]).tree else t;
      InsertAllDecoded(next, recs, ms, idx + 1);
    }
  }

  /** When every record decodes and every parent comes before its child,
      the loop drops no record: it adds one node per record, and the new
      nodes are exactly the decoded records. */
  lemma InsertAllKeepsEvery(t: Tree, recs: seq<string>, ms: seq<Member>, idx: nat)
    requires idx <= |recs| == |ms|
    requires DecodesTo(recs, ms, idx)
    requires ParentsFirst(t, ms, idx) && InsertAll(t, recs, idx).Success?
    ensures Size(InsertAll(t, recs, idx).value) == Size(t) + (|recs| - idx)
    ensures multiset(Labels(InsertAll(t, recs, idx).value)) == multiset(Labels(t)) + multiset(ms[idx..])
  {
    InsertAllDecoded(t, recs, ms, idx);
    AttachAllKeepsEvery(t, ms, idx);
    var r := InsertAll(t, recs, idx).value;
    assert |multiset(Labels(r))| == Size(r) && |multiset(Labels(t))| == Size(t);
  }

  /** A built tree whose records all decode, each parent before its child,
      holds every record: its size is the record count and its members are
      the decoded records. */
  lemma BuiltTreeKeepsEvery(members: string, ms: seq<Member>)
    requires members != [] && CreateFamilyTree(members).Success?
    requires var recs := Split(members, RecordDelimiter);
             |ms| == |recs| && DecodesTo(recs, ms, 0)
    requires |ms| >= 1 && ParentsFirst(Leaf(ms[0]), ms, 1)
    ensures Size(CreateFamilyTree(members).value) == |ms|
    ensures multiset(Labels(CreateFamilyTree(members).value)) == multiset(ms)
  {
    var recs := Split(members, RecordDelimiter);
    InsertAllKeepsEvery(Leaf(ms[0]), recs, ms, 1);
    LeafLabels(ms[0]);
    FirstThenRest(multiset(Labels(CreateFamilyTree(members).value)), multiset(Labels(Leaf(ms[0]))), ms);
  }

  /** The record text of each member. */
  function EncodeAll(ms: seq<Member>): seq<string>
  {
    seq(|ms|, i requires 0 <= i < |ms| => Encode(ms[i]))
  }

  /** A member that can be written into the input: C++ int ids and a name
      holding neither delimiter. */
  predicate Writable(m: Member)
  {
    Encodable(m) && RecordDelimiter !in m.name
  }

  lemma {:induction false} InsertAllEncoded(t: Tree, ms: seq<Member>, idx: nat)
    requires idx <= |ms|
    requires forall i | 0 <= i < |ms| :: Encodable(ms[i])
    ensures InsertAll(t, EncodeAll(ms), idx) == AttachAll(t, ms, idx)
    decreases |ms| - idx
  {
    if idx < |ms| {
      DecodeEncode(ms[idx]);
      match Attach(t, ms[idx])
      case ParentFull =>
      case NoParentFound => InsertAllEncoded(t, ms, idx + 1);
      case Attached(t') => InsertAllEncoded(t', ms, idx + 1);
    }
  }

  /** No record of a writable member holds the record delimiter. */
  lemma EncodeAvoidsRecordDelimiter(m: Member)
    requires Writable(m)
    ensures RecordDelimiter !in Encode(m)
  {
    var fields := [ParentText(m.parentId), IntToString(m.nodeId), m.name];
    IntToStringAvoids(m.nodeId, RecordDelimiter);
    if m.parentId == NoParent {
      assert forall j | 0 <= j < 4 :: "null"[j] != RecordDelimiter;
    } else {
      IntToStringAvoids(m.parentId, RecordDelimiter);
    }
    assert NoDelimiter(fields, RecordDelimiter);
    JoinAvoids(fields, FieldDelimiter, RecordDelimiter);
  }

  /** On input written from members, `createFamilyTree` is `Build`: parsing
      recovers the members exactly and the rest is the member-level loop. */
  lemma CreateFamilyTreeEncoded(ms: seq<Member>)
    requires |ms| >= 1 && forall i | 0 <= i < |ms| :: Writable(ms[i])
    ensures CreateFamilyTree(Join(EncodeAll(ms), RecordDelimiter)) == Build(ms)
  {
    var recs := EncodeAll(ms);
    assert NoDelimiter(recs, RecordDelimiter) by {
      forall i | 0 <= i < |recs| ensures RecordDelimiter !in recs[i] {
        EncodeAvoidsRecordDelimiter(ms[i]);
      }
    }
    SplitJoin(recs, RecordDelimiter);
    var members := Join(recs, RecordDelimiter);
    assert members != [] by {
      assert |Encode(ms[0])| >= 2;
      if |recs| > 1 { assert members == recs[0] + [RecordDelimiter] + Join(recs[1..], RecordDelimiter); }
    }
    DecodeEncode(ms[0]);
    InsertAllEncoded(Leaf(ms[0]), ms, 1);
  }
}
