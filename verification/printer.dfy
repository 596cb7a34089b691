/** `printFamilyTree`: the tree written out in pre-order, four lines per
    member. The lines are returned instead of being sent to `cout`. */
module Printer {
  import opened Wrappers
  import opened Decimal
  import opened FamilyTree
  import opened Record

  const ParentLabel: string := "Parent id: "
  const IdLabel: string := "Node id: "
  const NameLabel: string := "Node name: "

  /** The four lines one member prints: its parent (`null` for the
      sentinel), its id, its name, and the blank line left by the second
      newline. */
  function Block(m: Member): (lines: seq<string>)
    ensures |lines| == 4
  {
    [ParentLabel + ParentText(m.parentId), IdLabel + IntToString(m.nodeId), NameLabel + m.name, ""]
  }

  /** The whole printout: this node's block, then the left subtree's, then
      the right subtree's. */
  function Print(t: Tree): (lines: seq<string>)
    ensures |lines| == 4 * Size(t)
  {
    if t.Nil? then [] else Block(t.member) + Print(t.left) + Print(t.right)
  }

  /** The blocks of a list of members, one after the other. */
  function Render(ms: seq<Member>): (lines: seq<string>)
    ensures |lines| == 4 * |ms|
  {
    if ms == [] then [] else Block(ms[0]) + Render(ms[1..])
  }

  lemma {:induction false} RenderAppend(a: seq<Member>, b: seq<Member>)
    ensures Render(a + b) == Render(a) + Render(b)
  {
    if a == [] {
      assert a + b == b;
    } else {
      assert (a + b)[1..] == a[1..] + b;
      RenderAppend(a[1..], b);
    }
  }

  /** The printout lists the members in pre-order, one block each. */
  lemma {:induction false} PrintIsPreOrder(t: Tree)
    ensures Print(t) == Render(Labels(t))
  {
    if t.Node? {
      PrintIsPreOrder(t.left);
      PrintIsPreOrder(t.right);
      RenderAppend([t.member], Labels(t.left));
      RenderAppend([t.member] + Labels(t.left), Labels(t.right));
      assert Render([t.member]) == Block(t.member);
    }
  }

  /** Block `i` of a rendering belongs to member `i`. */
  lemma {:induction false} RenderBlock(ms: seq<Member>, i: nat)
    requires i < |ms|
    ensures Render(ms)[4 * i .. 4 * i + 4] == Block(ms[i])
  {
    if i == 0 {
      assert Render(ms) == Block(ms[0]) + Render(ms[1..]);
      ChunkFirst(Block(ms[0]), Render(ms[1..]));
    } else {
      RenderBlock(ms[1..], i - 1);
      RenderShift(ms, i);
      assert ms[1..][i - 1] == ms[i];
    }
  }

  /** Past the first block, a rendering is the rendering of the rest. */
  lemma RenderShift(ms: seq<Member>, i: nat)
    requires 0 < i < |ms|
    ensures Render(ms)[4 * i .. 4 * i + 4] == Render(ms[1..])[4 * (i - 1) .. 4 * (i - 1) + 4]
  {
    assert Render(ms) == Block(ms[0]) + Render(ms[1..]);
    ChunkShift(Block(ms[0]), Render(ms[1..]), i);
  }

  /** Four-line chunk `i` of `head + tail`, past a four-line head, is chunk
      `i - 1` of the tail. */
  lemma ChunkShift<T>(head: seq<T>, tail: seq<T>, i: nat)
    requires |head| == 4 && 0 < i && 4 * i + 4 <= |head| + |tail|
    ensures (head + tail)[4 * i .. 4 * i + 4] == tail[4 * (i - 1) .. 4 * (i - 1) + 4]
  {
    SliceOfAppend(head, tail, 4 * i, 4 * i + 4);
  }

  lemma ChunkFirst<T>(head: seq<T>, tail: seq<T>)
    requires |head| == 4
    ensures (head + tail)[0..4] == head
  {
  }

  /** A slice of `h + t` lies within `h` or within `t`. */
  lemma SliceOfAppend<T>(h: seq<T>, t: seq<T>, i: nat, j: nat)
    requires i <= j <= |h| + |t|
    ensures j <= |h| ==> (h + t)[i..j] == h[i..j]
    ensures |h| <= i ==> (h + t)[i..j] == t[i - |h| .. j - |h|]
  {
  }

  /** The `i`-th member in pre-order is printed on lines `4i` to `4i + 3`. */
  lemma PrintBlock(t: Tree, i: nat)
    requires i < Size(t)
    ensures Print(t)[4 * i .. 4 * i + 4] == Block(Labels(t)[i])
  {
    PrintIsPreOrder(t);
    RenderBlock(Labels(t), i);
  }

  /** The parent line says `null` exactly for the sentinel parent id. */
  lemma ParentLineNull(m: Member)
    ensures Block(m)[0] == ParentLabel + "null" <==> m.parentId == NoParent
  {
    if m.parentId != NoParent {
      NoDelimiterInInt(m.parentId);
      assert IntToString(m.parentId) == (ParentLabel + IntToString(m.parentId))[|ParentLabel|..];
    }
  }

  /** What follows `tag` on `line`, if `line` starts with it. */
  function After(tag: string, line: string): (r: Option<string>)
    ensures r.Some? <==> tag <= line
    ensures r.Some? ==> line == tag + r.value
  {
    if tag <= line then Some(line[|tag|..]) else None
  }

  /** Reading one block back: the inverse of `Block`. */
  function ReadBlock(lines: seq<string>): Option<Member>
    requires |lines| == 4
  {
    match (After(ParentLabel, lines[0]), After(IdLabel, lines[1]), After(NameLabel, lines[2]))
    case (Some(p), Some(i), Some(name)) =>
      if lines[3] == [] && ParentField(p).Success? && Stoi(i).Success?
      then Some(Member(ParentField(p).value, Stoi(i).value, name))
      else None
    case _ => None
  }

  /** Reading a whole printout back, block by block. */
  function ReadAll(lines: seq<string>): (r: Option<seq<Member>>)
    ensures r.Some? ==> |lines| == 4 * |r.value|
    decreases |lines|
  {
    if lines == [] then Some([])
    else if |lines| < 4 then None
    else
      match (ReadBlock(lines[..4]), ReadAll(lines[4..]))
      case (Some(m), Some(ms)) => Some([m] + ms)
      case _ => None
  }

  lemma AfterLabel(tag: string, rest: string)
    ensures After(tag, tag + rest) == Some(rest)
  {
    assert (tag + rest)[..|tag|] == tag;
    assert (tag + rest)[|tag|..] == rest;
  }

  /** A block reads back as the member that printed it, for ids a C++ int
      can hold. */
  lemma ReadBlockBlock(m: Member)
    requires InIntRange(m.parentId) && InIntRange(m.nodeId)
    ensures ReadBlock(Block(m)) == Some(m)
  {
    AfterLabel(ParentLabel, ParentText(m.parentId));
    AfterLabel(IdLabel, IntToString(m.nodeId));
    AfterLabel(NameLabel, m.name);
    ParentFieldText(m.parentId);
    StoiIntToString(m.nodeId, []);
    assert IntToString(m.nodeId) + [] == IntToString(m.nodeId);
  }

  /** Every member of `ms` has ids a C++ int can hold. */
  predicate IntIds(ms: seq<Member>)
  {
    forall i | 0 <= i < |ms| :: InIntRange(ms[i].parentId) && InIntRange(ms[i].nodeId)
  }

  lemma {:induction false} ReadRender(ms: seq<Member>)
    requires IntIds(ms)
    ensures ReadAll(Render(ms)) == Some(ms)
  {
    if ms != [] {
      assert IntIds(ms[1..]) by {
        forall i | 0 <= i < |ms| - 1 ensures ms[1..][i] == ms[i + 1] { }
      }
      ReadRender(ms[1..]);
      ReadRenderCons(ms);
    }
  }

  /** One step of reading a rendering back: the first block, then the rest. */
  lemma ReadRenderCons(ms: seq<Member>)
    requires ms != [] && IntIds(ms) && ReadAll(Render(ms[1..])) == Some(ms[1..])
    ensures ReadAll(Render(ms)) == Some(ms)
  {
    var head, tail := Block(ms[0]), Render(ms[1..]);
    assert Render(ms) == head + tail;
    ReadBlockBlock(ms[0]);
    ReadAllCons(head, tail);
    assert [ms[0]] + ms[1..] == ms;
  }

  /** Reading a block followed by more lines reads the block, then the rest. */
  lemma ReadAllCons(head: seq<string>, tail: seq<string>)
    requires |head| == 4
    ensures ReadAll(head + tail) ==
              match (ReadBlock(head), ReadAll(tail))
              case (Some(m), Some(ms)) => Some([m] + ms)
              case _ => None
  {
    assert (head + tail)[..4] == head;
    assert (head + tail)[4..] == tail;
  }

  /** The printout determines the tree's members in pre-order: reading it
      back gives exactly `Labels(t)`. */
  lemma ReadPrint(t: Tree)
    requires IntIds(Labels(t))
    ensures ReadAll(Print(t)) == Some(Labels(t))
  {
    PrintIsPreOrder(t);
    ReadRender(Labels(t));
  }
}
