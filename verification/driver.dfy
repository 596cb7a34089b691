/** The `main` of family_tree.cc and the behaviours its header promises, as
    facts about fixed inputs. */
module Driver {
  import opened Wrappers
  import opened Decimal
  import opened Delimited
  import opened FamilyTree
  import opened Record
  import opened Builder

  /** The record text `main` feeds in, one string per member. */
  const FamilyRecords: seq<string> := [
    "null,0,grandpa", "0,1,son", "0,2,daugther", "1,3,grandkid",
    "1,4,grandkid", "2,5,grandkid", "5,6,greatgrandkid"
  ]

  /** The input `main` builds: its string literal, written record by
      record. */
  const Family: string :=
    "null,0,grandpa" + "|" + ("0,1,son" + "|" + ("0,2,daugther" + "|" + ("1,3,grandkid" + "|" +
    ("1,4,grandkid" + "|" + ("2,5,grandkid" + "|" + "5,6,greatgrandkid")))))

  /** Its records, decoded. */
  const FamilyMembers: seq<Member> := [
    Member(NoParent, 0, "grandpa"),
    Member(0, 1, "son"),
    Member(0, 2, "daugther"),
    Member(1, 3, "grandkid"),
    Member(1, 4, "grandkid"),
    Member(2, 5, "grandkid"),
    Member(5, 6, "greatgrandkid")
  ]

  lemma FamilyEncoded()
    ensures EncodeAll(FamilyMembers) == FamilyRecords
  {
    var ms, rs := FamilyMembers, FamilyRecords;
    forall k | 0 <= k < 7 ensures Encode(ms[k]) == rs[k] {
      EncodeFamily(k);
    }
  }

  /** A record's text, field by field. */
  lemma EncodeFields(m: Member)
    ensures Encode(m) == ParentText(m.parentId) + "," + IntToString(m.nodeId) + "," + m.name
  {
    var p, i := ParentText(m.parentId), IntToString(m.nodeId);
    JoinCons(i, [m.name], FieldDelimiter);
    JoinCons(p, [i, m.name], FieldDelimiter);
    assert [i] + [m.name] == [i, m.name];
    assert [p] + [i, m.name] == [p, i, m.name];
  }

  /** Record `k` of `main`'s input is the text written for member `k`.
      Each record gets a lemma of its own, `EncodeRecord0` to
      `EncodeRecord6`, and each of those leaves its string-literal equality
      to a `RecordText` lemma: with the literals of several records in one
      proof context the solver no longer finishes. */
  lemma EncodeFamily(k: nat)
    requires k < 7
    ensures Encode(FamilyMembers[k]) == FamilyRecords[k]
  {
    if k == 0 {
      EncodeRecord0();
    } else if k == 1 {
      EncodeRecord1();
    } else if k == 2 {
      EncodeRecord2();
    } else if k == 3 {
      EncodeRecord3();
    } else if k == 4 {
      EncodeRecord4();
    } else if k == 5 {
      EncodeRecord5();
    } else {
      EncodeRecord6();
    }
  }

  lemma EncodeRecord0()
    ensures Encode(Member(NoParent, 0, "grandpa")) == "null,0,grandpa"
  {
    EncodeFields(Member(NoParent, 0, "grandpa"));
    assert ParentText(NoParent) == "null";
    assert IntToString(0) == "0";
    RecordText0();
  }

  lemma RecordText0()
    ensures "null" + "," + "0" + "," + "grandpa" == "null,0,grandpa"
  {
  }

  lemma EncodeRecord1()
    ensures Encode(Member(0, 1, "son")) == "0,1,son"
  {
    EncodeFields(Member(0, 1, "son"));
    assert ParentText(0) == "0";
    assert IntToString(1) == "1";
    RecordText1();
  }

  lemma RecordText1()
    ensures "0" + "," + "1" + "," + "son" == "0,1,son"
  {
  }

  lemma EncodeRecord2()
    ensures Encode(Member(0, 2, "daugther")) == "0,2,daugther"
  {
    EncodeFields(Member(0, 2, "daugther"));
    assert ParentText(0) == "0";
    assert IntToString(2) == "2";
    RecordText2();
  }

  lemma RecordText2()
    ensures "0" + "," + "2" + "," + "daugther" == "0,2,daugther"
  {
  }

  lemma EncodeRecord3()
    ensures Encode(Member(1, 3, "grandkid")) == "1,3,grandkid"
  {
    EncodeFields(Member(1, 3, "grandkid"));
    assert ParentText(1) == "1";
    assert IntToString(3) == "3";
    RecordText3();
  }

  lemma RecordText3()
    ensures "1" + "," + "3" + "," + "grandkid" == "1,3,grandkid"
  {
  }

  lemma EncodeRecord4()
    ensures Encode(Member(1, 4, "grandkid")) == "1,4,grandkid"
  {
    EncodeFields(Member(1, 4, "grandkid"));
    assert ParentText(1) == "1";
    assert IntToString(4) == "4";
    RecordText4();
  }

  lemma RecordText4()
    ensures "1" + "," + "4" + "," + "grandkid" == "1,4,grandkid"
  {
  }

  lemma EncodeRecord5()
    ensures Encode(Member(2, 5, "grandkid")) == "2,5,grandkid"
  {
    EncodeFields(Member(2, 5, "grandkid"));
    assert ParentText(2) == "2";
    assert IntToString(5) == "5";
    RecordText5();
  }

  lemma RecordText5()
    ensures "2" + "," + "5" + "," + "grandkid" == "2,5,grandkid"
  {
  }

  lemma EncodeRecord6()
    ensures Encode(Member(5, 6, "greatgrandkid")) == "5,6,greatgrandkid"
  {
    EncodeFields(Member(5, 6, "greatgrandkid"));
    assert ParentText(5) == "5";
    assert IntToString(6) == "6";
    RecordText6();
  }

  lemma RecordText6()
    ensures "5" + "," + "6" + "," + "greatgrandkid" == "5,6,greatgrandkid"
  {
  }

  lemma FamilyJoined()
    ensures Family == Join(FamilyRecords, RecordDelimiter)
  {
    var rs := FamilyRecords;
    var d := RecordDelimiter;
    assert Join(rs[6..], d) == rs[6];
    forall k | 0 <= k < 6 ensures Join(rs[k..], d) == rs[k] + [d] + Join(rs[k + 1..], d) {
      assert rs[k..] == [rs[k]] + rs[k + 1..];
      JoinCons(rs[k], rs[k + 1..], d);
    }
    assert rs[0..] == rs;
  }

  /** The tree after each record of `main`'s input is attached. */
  function Stage(i: nat): Tree
    requires 1 <= i <= 7
  {
    var m := FamilyMembers;
    var n3, n4, n6 := Leaf(m[3]), Leaf(m[4]), Leaf(m[6]);
    var n5 := if i >= 7 then Node(m[5], n6, Nil) else Leaf(m[5]);
    var n1 := Node(m[1], if i >= 4 then n3 else Nil, if i >= 5 then n4 else Nil);
    var n2 := Node(m[2], if i >= 6 then n5 else Nil, Nil);
    Node(m[0], if i >= 2 then n1 else Nil, if i >= 3 then n2 else Nil)
  }

  lemma PathHere(t: Tree, k: int)
    requires t.Node? && t.member.nodeId == k
    ensures FindPath(t, k) == Some([])
  {
  }

  lemma PathLeft(t: Tree, k: int, p: Path)
    requires t.Node? && t.member.nodeId != k && FindPath(t.left, k) == Some(p)
    ensures FindPath(t, k) == Some([Left] + p)
  {
  }

  lemma PathRight(t: Tree, k: int, p: Path)
    requires t.Node? && t.member.nodeId != k && k !in Ids(t.left) && FindPath(t.right, k) == Some(p)
    ensures FindPath(t, k) == Some([Right] + p)
  {
  }

  /** Attaching `m` once the parent's path `p` and free side `d` are known. */
  lemma AttachVia(t: Tree, m: Member, p: Path, d: Dir)
    requires FindPath(t, m.parentId) == Some(p)
    requires FreeSlot(Subtree(t, p)) == Some(d)
    ensures Attach(t, m) == Attached(Graft(t, p + [d], Leaf(m)))
  {
  }

  lemma GraftCons(t: Tree, d: Dir, p: Path, s: Tree)
    requires t.Node?
    ensures Graft(t, [d] + p, s) ==
              if d == Left then t.(left := Graft(t.left, p, s)) else t.(right := Graft(t.right, p, s))
  {
    assert ([d] + p)[1..] == p;
  }

  lemma AttachStage1()
    ensures Attach(Stage(1), FamilyMembers[1]) == Attached(Stage(2))
  {
    PathHere(Stage(1), 0);
    AttachVia(Stage(1), FamilyMembers[1], [], Left);
  }

  lemma AttachStage2()
    ensures Attach(Stage(2), FamilyMembers[2]) == Attached(Stage(3))
  {
    PathHere(Stage(2), 0);
    AttachVia(Stage(2), FamilyMembers[2], [], Right);
  }

  lemma AttachStage3()
    ensures Attach(Stage(3), FamilyMembers[3]) == Attached(Stage(4))
  {
    var t := Stage(3);
    PathHere(t.left, 1);
    PathLeft(t, 1, []);
    assert [Left] + [] == [Left];
    AttachVia(t, FamilyMembers[3], [Left], Left);
  }

  lemma AttachStage4()
    ensures Attach(Stage(4), FamilyMembers[4]) == Attached(Stage(5))
  {
    var t := Stage(4);
    PathHere(t.left, 1);
    PathLeft(t, 1, []);
    assert [Left] + [] == [Left];
    AttachVia(t, FamilyMembers[4], [Left], Right);
    GraftCons(t, Left, [Right], Leaf(FamilyMembers[4]));
    GraftCons(t.left, Right, [], Leaf(FamilyMembers[4]));
  }

  lemma AttachStage5()
    ensures Attach(Stage(5), FamilyMembers[5]) == Attached(Stage(6))
  {
    var t := Stage(5);
    PathHere(t.right, 2);
    assert Ids(t.left) == [1, 3, 4];
    PathRight(t, 2, []);
    assert [Right] + [] == [Right];
    AttachVia(t, FamilyMembers[5], [Right], Left);
    GraftCons(t, Right, [Left], Leaf(FamilyMembers[5]));
    GraftCons(t.right, Left, [], Leaf(FamilyMembers[5]));
  }

  lemma AttachStage6()
    ensures Attach(Stage(6), FamilyMembers[6]) == Attached(Stage(7))
  {
    var t := Stage(6);
    PathHere(t.right.left, 5);
    PathLeft(t.right, 5, []);
    assert [Left] + [] == [Left];
    assert Ids(t.left) == [1, 3, 4];
    PathRight(t, 5, [Left]);
    assert [Right] + [Left] == [Right, Left];
    AttachVia(t, FamilyMembers[6], [Right, Left], Left);
    assert [Right, Left] + [Left] == [Right] + ([Left] + [Left]);
    GraftCons(t, Right, [Left] + [Left], Leaf(FamilyMembers[6]));
    GraftCons(t.right, Left, [Left], Leaf(FamilyMembers[6]));
    GraftCons(t.right.left, Left, [], Leaf(FamilyMembers[6]));
  }

  lemma FamilyWritable()
    ensures forall i | 0 <= i < |FamilyMembers| :: Writable(FamilyMembers[i])
  {
    forall i | 0 <= i < |FamilyMembers| ensures Writable(FamilyMembers[i]) {
      var name := FamilyMembers[i].name;
      assert forall j | 0 <= j < |name| :: 'a' <= name[j] <= 'z';
    }
  }

  lemma AttachAllFamily(i: nat)
    requires 1 <= i <= 7
    ensures AttachAll(Stage(i), FamilyMembers, i) == Success(Stage(7))
    decreases 7 - i
  {
    if i == 1 { AttachStage1(); }
    else if i == 2 { AttachStage2(); }
    else if i == 3 { AttachStage3(); }
    else if i == 4 { AttachStage4(); }
    else if i == 5 { AttachStage5(); }
    else if i == 6 { AttachStage6(); }
    if i < 7 { AttachAllFamily(i + 1); }
  }

  /** `main`'s input builds `Stage(7)`. */
  lemma MainBuildsFamily()
    ensures CreateFamilyTree(Family) == Success(Stage(7))
  {
    var ms := FamilyMembers;
    FamilyJoined();
    FamilyEncoded();
    assert Family == Join(EncodeAll(ms), RecordDelimiter);
    FamilyWritable();
    CreateFamilyTreeEncoded(ms);
    assert Stage(1) == Leaf(ms[0]) && ms[0].parentId == NoParent;
    AttachAllFamily(1);
  }

  lemma StagePreOrder()
    ensures Ids(Stage(7)) == [0, 1, 3, 4, 2, 5, 6]
  {
    var t := Stage(7);
    assert Ids(t.left.left) == [3] && Ids(t.left.right) == [4];
    assert Ids(t.left) == [1] + [3] + [4];
    assert Ids(t.right.left.left) == [6];
    assert Ids(t.right.left) == [5] + [6] + [];
    assert Ids(t.right) == [2] + [5, 6] + [];
    assert Ids(t) == [0] + [1, 3, 4] + [2, 5, 6];
  }

  /** The tree `main` builds has the pre-order 0, 1, 3, 4, 2, 5, 6: grandpa's
      children are son and daugther, son's are the grandkids 3 and 4, and
      daugther's only child 5 has the one great-grandchild 6. */
  lemma FamilyPreOrder()
    ensures CreateFamilyTree(Family).Success?
    ensures Ids(CreateFamilyTree(Family).value) == [0, 1, 3, 4, 2, 5, 6]
  {
    MainBuildsFamily();
    StagePreOrder();
  }

  /** In `main`'s input every parent comes before its children, the
      condition under which `BuiltTreeKeepsEvery` promises one node per
      record. */
  lemma FamilyParentsFirst()
    ensures ParentsFirst(Leaf(FamilyMembers[0]), FamilyMembers, 1)
  {
    var ms := FamilyMembers;
    assert ParentsKnown(multiset{0, 1, 2, 3, 4, 5, 6}, ms, 7);
    assert multiset{0, 1, 2, 3, 4, 5} + multiset{6} == multiset{0, 1, 2, 3, 4, 5, 6};
    assert ParentsKnown(multiset{0, 1, 2, 3, 4, 5}, ms, 6);
    assert multiset{0, 1, 2, 3, 4} + multiset{5} == multiset{0, 1, 2, 3, 4, 5};
    assert ParentsKnown(multiset{0, 1, 2, 3, 4}, ms, 5);
    assert multiset{0, 1, 2, 3} + multiset{4} == multiset{0, 1, 2, 3, 4};
    assert ParentsKnown(multiset{0, 1, 2, 3}, ms, 4);
    assert multiset{0, 1, 2} + multiset{3} == multiset{0, 1, 2, 3};
    assert ParentsKnown(multiset{0, 1, 2}, ms, 3);
    assert multiset{0, 1} + multiset{2} == multiset{0, 1, 2};
    assert ParentsKnown(multiset{0, 1}, ms, 2);
    assert multiset{0} + multiset{1} == multiset{0, 1};
    assert ParentsKnown(multiset{0}, ms, 1);
    LeafLabels(ms[0]);
  }

  /** A record whose parent is nowhere in the tree is dropped, and the build
      still succeeds. */
  lemma OrphanIsDropped()
    ensures Build([Member(NoParent, 0, "a"), Member(7, 1, "b")]) == Success(Leaf(Member(NoParent, 0, "a")))
  {
    var ms := [Member(NoParent, 0, "a"), Member(7, 1, "b")];
    var t := Leaf(ms[0]);
    assert Ids(t) == [0];
    assert Attach(t, ms[1]) == NoParentFound;
    assert AttachAll(t, ms, 2) == Success(t);
    assert Build(ms) == AttachAll(t, ms, 1);
  }

  /** A third child aborts the build at its record. */
  lemma ThirdChildFails()
    ensures Build([Member(NoParent, 0, "a"), Member(0, 1, "b"), Member(0, 2, "c"), Member(0, 3, "d")])
            == Failure(TooManyChildren(3))
  {
    var ms := [Member(NoParent, 0, "a"), Member(0, 1, "b"), Member(0, 2, "c"), Member(0, 3, "d")];
    var t1 := Leaf(ms[0]);
    var t2 := Node(ms[0], Leaf(ms[1]), Nil);
    var t3 := Node(ms[0], Leaf(ms[1]), Leaf(ms[2]));
    PathHere(t1, 0);
    AttachVia(t1, ms[1], [], Left);
    PathHere(t2, 0);
    AttachVia(t2, ms[2], [], Right);
    PathHere(t3, 0);
    assert Attach(t3, ms[3]) == ParentFull;
    assert AttachAll(t3, ms, 3) == Failure(TooManyChildren(3));
    assert AttachAll(t2, ms, 2) == AttachAll(t3, ms, 3);
    assert AttachAll(t1, ms, 1) == AttachAll(t2, ms, 2);
    assert Build(ms) == AttachAll(t1, ms, 1);
  }

  /** The first record must be the root. */
  lemma FirstRecordMustBeRoot()
    ensures Build([Member(0, 1, "x")]) == Failure(RootHasParent)
  {
  }

  /** Two nodes share id 1: the grandchild goes under the first of them in
      pre-order, the left child `b`, and not under `c`. */
  lemma DuplicateIdUsesFirstMatch()
    ensures Build([Member(NoParent, 0, "a"), Member(0, 1, "b"), Member(0, 1, "c"), Member(1, 2, "d")])
            == Success(Node(Member(NoParent, 0, "a"),
                            Node(Member(0, 1, "b"), Leaf(Member(1, 2, "d")), Nil),
                            Leaf(Member(0, 1, "c"))))
  {
    var ms := [Member(NoParent, 0, "a"), Member(0, 1, "b"), Member(0, 1, "c"), Member(1, 2, "d")];
    var t1 := Leaf(ms[0]);
    var t2 := Node(ms[0], Leaf(ms[1]), Nil);
    var t3 := Node(ms[0], Leaf(ms[1]), Leaf(ms[2]));
    PathHere(t1, 0);
    AttachVia(t1, ms[1], [], Left);
    PathHere(t2, 0);
    AttachVia(t2, ms[2], [], Right);
    PathHere(t3.left, 1);
    PathLeft(t3, 1, []);
    assert [Left] + [] == [Left];
    AttachVia(t3, ms[3], [Left], Left);
    GraftCons(t3, Left, [Left], Leaf(ms[3]));
    GraftCons(t3.left, Left, [], Leaf(ms[3]));
    var t4 := Node(ms[0], Node(ms[1], Leaf(ms[3]), Nil), Leaf(ms[2]));
    assert Attach(t3, ms[3]) == Attached(t4);
    assert AttachAll(t4, ms, 4) == Success(t4);
    assert AttachAll(t3, ms, 3) == AttachAll(t4, ms, 4);
    assert AttachAll(t2, ms, 2) == AttachAll(t3, ms, 3);
    assert AttachAll(t1, ms, 1) == AttachAll(t2, ms, 2);
    assert Build(ms) == AttachAll(t1, ms, 1);
  }
}
