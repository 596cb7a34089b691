/** Splitting a string on a one-character delimiter, as the two `find`/`substr`
    loops of family_tree.cc do (`,` between the fields of a record, `|`
    between records), and the inverse operation, joining. */
module Delimited {

  /** `s.find(d, from)`: the first index at or after `from` holding `d`;
      `|s|` stands for `string::npos`. */
  function FindChar(s: string, d: char, from: nat): (i: nat)
    requires from <= |s|
    ensures from <= i <= |s|
    ensures i < |s| ==> s[i] == d
    decreases |s| - from
  {
    if from == |s| then |s|
    else if s[from] == d then from
    else FindChar(s, d, from + 1)
  }

  /** No delimiter lies between `from` and what `FindChar` finds. */
  lemma {:induction false} FindCharIsFirst(s: string, d: char, from: nat)
    requires from <= |s|
    ensures d !in s[from..FindChar(s, d, from)]
    decreases |s| - from
  {
    if from < |s| && s[from] != d {
      FindCharIsFirst(s, d, from + 1);
      assert s[from..FindChar(s, d, from)] == [s[from]] + s[from + 1..FindChar(s, d, from + 1)];
    }
  }

  /** The substrings of `s` between successive occurrences of `d`, the
      last piece being everything after the last occurrence. */
  function Split(s: string, d: char): (pieces: seq<string>)
    ensures |pieces| >= 1
    decreases |s|
  {
    var end := FindChar(s, d, 0);
    if end == |s| then [s]
    else [s[..end]] + Split(s[end + 1..], d)
  }

  /** The pieces, with `d` between each two of them. */
  function Join(pieces: seq<string>, d: char): string
  {
    if |pieces| == 0 then []
    else if |pieces| == 1 then pieces[0]
    else pieces[0] + [d] + Join(pieces[1..], d)
  }

  /** Joining with `c` brings in no other character. */
  lemma {:induction false} JoinAvoids(pieces: seq<string>, c: char, d: char)
    requires d != c && NoDelimiter(pieces, d)
    ensures d !in Join(pieces, c)
    decreases |pieces|
  {
    if |pieces| > 1 {
      JoinAvoids(pieces[1..], c, d);
    }
  }

  /** Number of occurrences of `d` in `s`. */
  function Occurrences(s: string, d: char): nat
  {
    if s == [] then 0
    else (if s[0] == d then 1 else 0) + Occurrences(s[1..], d)
  }

  predicate NoDelimiter(pieces: seq<string>, d: char)
  {
    forall i | 0 <= i < |pieces| :: d !in pieces[i]
  }

  /** The loop of family_tree.cc as written: `start`/`end` walk the string,
      each found delimiter closes one piece, and the remainder is the last. */
  method SplitLoop(s: string, d: char) returns (pieces: seq<string>)
    ensures |pieces| >= 1
    ensures Join(pieces, d) == s
    ensures NoDelimiter(pieces, d)
    ensures pieces == Split(s, d)
  {
    pieces := [];
    var start := 0;
    var end := FindChar(s, d, 0);
    while end < |s|
      invariant start <= end <= |s|
      invariant end == FindChar(s, d, start)
      invariant NoDelimiter(pieces, d)
      invariant pieces == [] ==> start == 0
      invariant pieces != [] ==> Join(pieces, d) + [d] == s[..start]
      decreases |s| - start
    {
      LoopStep(s, d, start, pieces);
      pieces := pieces + [s[start..end]];
      start := end + 1;
      end := FindChar(s, d, start);
    }
    LoopEnd(s, d, start, pieces);
    pieces := pieces + [s[start..]];
    SplitJoin(pieces, d);
  }

  /** One turn of the loop keeps its invariant. */
  lemma LoopStep(s: string, d: char, start: nat, pieces: seq<string>)
    requires start <= |s| && FindChar(s, d, start) < |s|
    requires NoDelimiter(pieces, d)
    requires pieces == [] ==> start == 0
    requires pieces != [] ==> Join(pieces, d) + [d] == s[..start]
    ensures var end := FindChar(s, d, start);
            && NoDelimiter(pieces + [s[start..end]], d)
            && Join(pieces + [s[start..end]], d) + [d] == s[..end + 1]
  {
    var end := FindChar(s, d, start);
    var piece := s[start..end];
    FindCharIsFirst(s, d, start);
    NoDelimiterSnoc(pieces, piece, d);
    JoinSnoc(pieces, piece, d);
    assert s[..end + 1] == s[..start] + piece + [d];
  }

  /** Leaving the loop: the remainder is the last piece. */
  lemma LoopEnd(s: string, d: char, start: nat, pieces: seq<string>)
    requires start <= |s| && FindChar(s, d, start) == |s|
    requires NoDelimiter(pieces, d)
    requires pieces == [] ==> start == 0
    requires pieces != [] ==> Join(pieces, d) + [d] == s[..start]
    ensures NoDelimiter(pieces + [s[start..]], d)
    ensures Join(pieces + [s[start..]], d) == s
  {
    var piece := s[start..];
    FindCharIsFirst(s, d, start);
    assert s[start..FindChar(s, d, start)] == piece;
    NoDelimiterSnoc(pieces, piece, d);
    JoinSnoc(pieces, piece, d);
    assert s == s[..start] + piece;
  }

  lemma NoDelimiterSnoc(pieces: seq<string>, x: string, d: char)
    requires NoDelimiter(pieces, d) && d !in x
    ensures NoDelimiter(pieces + [x], d)
  {
    var ps := pieces + [x];
    forall i | 0 <= i < |ps| ensures d !in ps[i] {
      if i < |pieces| { assert ps[i] == pieces[i]; }
    }
  }

  lemma {:induction false} JoinSnoc(pieces: seq<string>, last: string, d: char)
    ensures pieces == [] ==> Join(pieces + [last], d) == last
    ensures pieces != [] ==> Join(pieces + [last], d) == Join(pieces, d) + [d] + last
    decreases |pieces|
  {
    if |pieces| >= 2 {
      assert (pieces + [last])[1..] == pieces[1..] + [last];
      JoinSnoc(pieces[1..], last, d);
    } else if |pieces| == 1 {
      assert pieces + [last] == [pieces[0], last];
      assert [pieces[0], last][1..] == [last];
    }
  }

  /** A list of pieces is free of `d` exactly when its head and its tail are. */
  lemma NoDelimiterCons(x: string, rest: seq<string>, d: char)
    ensures NoDelimiter([x] + rest, d) <==> d !in x && NoDelimiter(rest, d)
  {
    var ps := [x] + rest;
    if d !in x && NoDelimiter(rest, d) {
      forall i | 0 <= i < |ps| ensures d !in ps[i] {
        if i > 0 { assert ps[i] == rest[i - 1]; }
      }
    }
    if NoDelimiter(ps, d) {
      assert ps[0] == x;
      forall i | 0 <= i < |rest| ensures d !in rest[i] {
        assert rest[i] == ps[i + 1];
      }
    }
  }

  /** Joining the pieces with the delimiter gives back the input, and no
      piece contains the delimiter. */
  lemma {:induction false} JoinSplit(s: string, d: char)
    ensures Join(Split(s, d), d) == s
    ensures NoDelimiter(Split(s, d), d)
    decreases |s|
  {
    var end := FindChar(s, d, 0);
    var first := s[..end];
    FindCharIsFirst(s, d, 0);
    assert s[0..end] == first;
    if end < |s| {
      var tail := s[end + 1..];
      JoinSplit(tail, d);
      var rest := Split(tail, d);
      JoinCons(first, rest, d);
      assert s == first + [d] + tail;
      NoDelimiterCons(first, rest, d);
    } else {
      NoDelimiterCons(first, [], d);
      assert [first] + [] == [first];
    }
  }

  lemma JoinCons(x: string, rest: seq<string>, d: char)
    requires |rest| >= 1
    ensures Join([x] + rest, d) == x + [d] + Join(rest, d)
  {
    assert ([x] + rest)[1..] == rest;
  }

  /** Where the first delimiter of `a + [d] + b` is, when `a` has none. */
  lemma {:induction false} FindCharAfterPiece(a: string, b: string, d: char, from: nat)
    requires d !in a && from <= |a|
    ensures FindChar(a + [d] + b, d, from) == |a|
    decreases |a| - from
  {
    var s := a + [d] + b;
    if from < |a| {
      assert s[from] == a[from];
      FindCharAfterPiece(a, b, d, from + 1);
    }
  }

  lemma {:induction false} FindCharNone(s: string, d: char, from: nat)
    requires d !in s && from <= |s|
    ensures FindChar(s, d, from) == |s|
    decreases |s| - from
  {
    if from < |s| {
      FindCharNone(s, d, from + 1);
    }
  }

  lemma {:induction false} FindCharSuffix(pre: string, s: string, d: char, from: nat)
    requires from <= |s|
    ensures FindChar(pre + s, d, |pre| + from) == |pre| + FindChar(s, d, from)
    decreases |s| - from
  {
    if from < |s| {
      assert (pre + s)[|pre| + from] == s[from];
      FindCharSuffix(pre, s, d, from + 1);
    }
  }

  /** Splitting a first piece free of `d`, then `d`, then the rest. */
  lemma SplitCons(a: string, b: string, d: char)
    requires d !in a
    ensures Split(a + [d] + b, d) == [a] + Split(b, d)
  {
    var s := a + [d] + b;
    FindCharAfterPiece(a, b, d, 0);
    assert s[..|a|] == a;
    assert s[|a| + 1..] == b;
  }

  /** Splitting undoes joining, provided no piece contains the delimiter. */
  lemma {:induction false} SplitJoin(pieces: seq<string>, d: char)
    requires |pieces| >= 1 && NoDelimiter(pieces, d)
    ensures Split(Join(pieces, d), d) == pieces
    decreases |pieces|
  {
    var a, rest := pieces[0], pieces[1..];
    assert pieces == [a] + rest;
    NoDelimiterCons(a, rest, d);
    if |pieces| == 1 {
      FindCharNone(a, d, 0);
    } else {
      SplitJoin(rest, d);
      JoinCons(a, rest, d);
      SplitCons(a, Join(rest, d), d);
    }
  }

  /** The pieces of `a`, a delimiter, then `b` are the pieces of `a` followed
      by those of `b`: appending fields never changes the earlier ones. */
  lemma SplitAppend(a: string, b: string, d: char)
    ensures Split(a + [d] + b, d) == Split(a, d) + Split(b, d)
  {
    JoinSplit(a, d);
    JoinSplit(b, d);
    var pa, pb := Split(a, d), Split(b, d);
    JoinAppend(pa, pb, d);
    assert Join(pa + pb, d) == a + [d] + b;
    NoDelimiterAppend(pa, pb, d);
    SplitJoin(pa + pb, d);
  }

  lemma NoDelimiterAppend(p: seq<string>, q: seq<string>, d: char)
    requires NoDelimiter(p, d) && NoDelimiter(q, d)
    ensures NoDelimiter(p + q, d)
  {
    forall i | 0 <= i < |p + q| ensures d !in (p + q)[i] {
      if i < |p| { assert (p + q)[i] == p[i]; } else { assert (p + q)[i] == q[i - |p|]; }
    }
  }

  lemma {:induction false} JoinAppend(p: seq<string>, q: seq<string>, d: char)
    requires |p| >= 1 && |q| >= 1
    ensures Join(p + q, d) == Join(p, d) + [d] + Join(q, d)
    decreases |p|
  {
    if |p| == 1 {
      assert (p + q)[1..] == q;
    } else {
      assert (p + q)[1..] == p[1..] + q;
      JoinAppend(p[1..], q, d);
    }
  }

  lemma {:induction false} OccurrencesAppend(a: string, b: string, d: char)
    ensures Occurrences(a + b, d) == Occurrences(a, d) + Occurrences(b, d)
    decreases |a|
  {
    if a != [] {
      assert (a + b)[1..] == a[1..] + b;
      OccurrencesAppend(a[1..], b, d);
    } else {
      assert a + b == b;
    }
  }

  lemma {:induction false} OccurrencesNone(s: string, d: char)
    requires d !in s
    ensures Occurrences(s, d) == 0
    decreases |s|
  {
    if s != [] {
      OccurrencesNone(s[1..], d);
    }
  }

  lemma {:induction false} OccurrencesJoin(pieces: seq<string>, d: char)
    requires |pieces| >= 1 && NoDelimiter(pieces, d)
    ensures Occurrences(Join(pieces, d), d) == |pieces| - 1
    decreases |pieces|
  {
    OccurrencesNone(pieces[0], d);
    if |pieces| > 1 {
      var rest := pieces[1..];
      assert NoDelimiter(rest, d) by {
        forall i | 0 <= i < |rest| ensures d !in rest[i] {
          assert rest[i] == pieces[i + 1];
        }
      }
      OccurrencesJoin(rest, d);
      OccurrencesAppend(pieces[0] + [d], Join(rest, d), d);
      OccurrencesAppend(pieces[0], [d], d);
    }
  }

  /** There is one piece more than there are delimiters; in particular the
      list is never empty, so the `members_list.size() == 0` test of
      createFamilyTree can never succeed. */
  lemma PieceCount(s: string, d: char)
    ensures |Split(s, d)| == Occurrences(s, d) + 1
  {
    JoinSplit(s, d);
    OccurrencesJoin(Split(s, d), d);
  }
}
