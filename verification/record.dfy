/** `createFamilyMember`: one `parent,id,name` record into a member. */
module Record {
  import opened Wrappers
  import opened Delimited
  import opened Decimal
  import opened FamilyTree

  const FieldDelimiter: char := ','

  /** Why a record cannot be decoded. The C++ code reads past the end of its
      field vector (`MissingField`) or lets `stoi` throw (`BadNumber`). */
  datatype DecodeError = BadNumber(field: nat, why: StoiError) | MissingField(field: nat)

  /** The parent field: the word `null` is the sentinel, anything else goes
      through stoi. */
  function ParentField(f: string): Result<int, StoiError>
  {
    if f == "null" then Success(NoParent) else Stoi(f)
  }

  /** Decoding in the order the C++ expressions are evaluated: the parent
      field, then field 1 is read and converted, then field 2 is read. Fields
      after the third are never looked at. */
  function Decode(rec: string): (r: Result<Member, DecodeError>)
    ensures r.Success? <==>
              var f := Split(rec, FieldDelimiter);
              |f| >= 3 && ParentField(f[0]).Success? && Stoi(f[1]).Success?
    ensures r.Success? ==>
              var f := Split(rec, FieldDelimiter);
              && r.value.name == f[2]
              && Stoi(f[1]) == Success(r.value.nodeId)
              && (r.value.parentId == NoParent <==> f[0] == "null" || Stoi(f[0]) == Success(NoParent))
              && (f[0] != "null" ==> Stoi(f[0]) == Success(r.value.parentId))
    ensures r.Success? ==> Encodable(r.value)
  {
    JoinSplit(rec, FieldDelimiter);
    var f := Split(rec, FieldDelimiter);
    var parent := ParentField(f[0]);
    if parent.Failure? then Failure(BadNumber(0, parent.error))
    else if |f| < 2 then Failure(MissingField(1))
    else
      var id := Stoi(f[1]);
      if id.Failure? then Failure(BadNumber(1, id.error))
      else if |f| < 3 then Failure(MissingField(2))
      else Success(Member(parent.value, id.value, f[2]))
  }

  /** The record text that decodes to `m`: its parent (or `null`), its id and
      its name, comma-separated. */
  function Encode(m: Member): string
  {
    Join([ParentText(m.parentId), IntToString(m.nodeId), m.name], FieldDelimiter)
  }

  /** How a parent id is written: the sentinel as `null`, any other id as a
      decimal number. */
  function ParentText(parentId: int): string
  {
    if parentId == NoParent then "null" else IntToString(parentId)
  }

  /** Reading the parent field back recovers any C++ int parent id. */
  lemma ParentFieldText(parentId: int)
    requires InIntRange(parentId)
    ensures ParentField(ParentText(parentId)) == Success(parentId)
  {
    if parentId != NoParent {
      NoDelimiterInInt(parentId);
      StoiIntToString(parentId, []);
      assert IntToString(parentId) + [] == IntToString(parentId);
    }
  }

  /** A member whose ids are C++ ints and whose name holds no comma. */
  predicate Encodable(m: Member)
  {
    InIntRange(m.parentId) && InIntRange(m.nodeId) && FieldDelimiter !in m.name
  }

  lemma NoDelimiterInInt(n: int)
    ensures FieldDelimiter !in IntToString(n)
    ensures IntToString(n) != "null"
  {
    assert IntToString(n)[0] != 'n';
    IntToStringAvoids(n, FieldDelimiter);
  }

  /** Decoding undoes encoding. */
  lemma DecodeEncode(m: Member)
    requires Encodable(m)
    ensures Decode(Encode(m)) == Success(m)
  {
    var parent := ParentText(m.parentId);
    var id := IntToString(m.nodeId);
    NoDelimiterInInt(m.parentId);
    NoDelimiterInInt(m.nodeId);
    var fields := [parent, id, m.name];
    assert NoDelimiter(fields, FieldDelimiter) by {
      forall i | 0 <= i < 3 ensures FieldDelimiter !in fields[i] {
        if i == 0 && parent == "null" {
          assert forall j | 0 <= j < 4 :: parent[j] != FieldDelimiter;
        }
      }
    }
    SplitJoin(fields, FieldDelimiter);
    StoiIntToString(m.nodeId, []);
    assert id + [] == id;
    if m.parentId != NoParent {
      StoiIntToString(m.parentId, []);
      assert parent + [] == parent;
    }
  }

  /** Encoding undoes decoding, for records whose numbers are written the way
      `cout` writes them and whose name has no comma: such a record is
      re-created character for character. */
  lemma EncodeDecode(rec: string)
    requires Decode(rec).Success?
    requires var f := Split(rec, FieldDelimiter);
             && |f| == 3
             && f[0] == ParentText(Decode(rec).value.parentId)
             && f[1] == IntToString(Decode(rec).value.nodeId)
    ensures Encode(Decode(rec).value) == rec
  {
    var f := Split(rec, FieldDelimiter);
    var m := Decode(rec).value;
    JoinSplit(rec, FieldDelimiter);
    assert f == [f[0], f[1], f[2]];
  }

  /** Text after a third comma is ignored. */
  lemma DecodeIgnoresExtraFields(rec: string, extra: string)
    requires |Split(rec, FieldDelimiter)| >= 3
    ensures Decode(rec + [FieldDelimiter] + extra) == Decode(rec)
  {
    SplitAppend(rec, extra, FieldDelimiter);
  }

  /** Two records that differ only in parent fields which read as the same
      parent decode alike. */
  lemma SameParentSameDecode(a: string, b: string, rest: string)
    requires FieldDelimiter !in a && FieldDelimiter !in b
    requires ParentField(a) == ParentField(b)
    ensures Decode(a + [FieldDelimiter] + rest) == Decode(b + [FieldDelimiter] + rest)
  {
    SplitCons(a, rest, FieldDelimiter);
    SplitCons(b, rest, FieldDelimiter);
  }

  /** A parent field `-1` is indistinguishable from `null`: both give the
      sentinel. */
  lemma MinusOneIsNull(rest: string)
    ensures Decode("-1," + rest) == Decode("null," + rest)
    ensures Decode("null," + rest).Success? ==> Decode("null," + rest).value.parentId == NoParent
  {
    assert "-1," + rest == "-1" + [FieldDelimiter] + rest;
    assert "null," + rest == "null" + [FieldDelimiter] + rest;
    assert IntToString(NoParent) == "-1" by {
      assert Digits(1) == "1";
    }
    StoiIntToString(NoParent, []);
    assert "-1" + [] == "-1";
    SameParentSameDecode("-1", "null", rest);
    SplitCons("null", rest, FieldDelimiter);
  }
}
