/** Generic vocabulary shared by the whole model: optional values, the HTTP
    status codes the routes answer with, and the sequence operations that
    stand in for SQL's WHERE, ORDER BY ... DESC, LIMIT and OFFSET. */
module Base {

  datatype Option<+T> = None | Some(value: T)

  /** HTTP status codes used by the routes. */
  type Status = int
  const OK: Status := 200
  const Created: Status := 201
  const BadRequest: Status := 400
  const Unauthorized: Status := 401
  const Forbidden: Status := 403
  const NotFound: Status := 404
  const Conflict: Status := 409
  const ServerError: Status := 500

  function Min(a: int, b: int): int {
    if a <= b then a else b
  }

  /** The elements of `s` that satisfy `f`, in their original order (SQL WHERE). */
  function Filter<T>(s: seq<T>, f: T -> bool): (r: seq<T>)
    ensures |r| <= |s|
    ensures forall x :: x in r ==> x in s && f(x)
    ensures forall x :: x in s && f(x) ==> x in r
  {
    if |s| == 0 then []
    else (if f(s[0]) then [s[0]] else []) + Filter(s[1..], f)
  }

  /** The first element of `s` satisfying `f` (`rows[0]` of a WHERE query). */
  function First<T>(s: seq<T>, f: T -> bool): (r: Option<T>)
    ensures r.Some? ==> r.value in s && f(r.value)
    ensures r.None? <==> forall x :: x in s ==> !f(x)
  {
    if |s| == 0 then None
    else if f(s[0]) then Some(s[0])
    else First(s[1..], f)
  }

  /** `s` read back to front. */
  function Reverse<T>(s: seq<T>): (r: seq<T>)
    ensures |r| == |s|
    ensures forall i :: 0 <= i < |s| ==> r[i] == s[|s| - 1 - i]
    ensures forall x :: x in r ==> x in s
    ensures forall x :: x in s ==> x in r
  {
    if |s| == 0 then [] else Reverse(s[1..]) + [s[0]]
  }

  /** The rows kept by `LIMIT limit OFFSET offset`: positions
      `offset .. offset+limit-1` of `s`, clipped to its end. */
  function Window<T>(s: seq<T>, offset: nat, limit: nat): (r: seq<T>)
    ensures |r| == if offset >= |s| then 0 else Min(limit, |s| - offset)
    ensures forall i :: 0 <= i < |r| ==> offset + i < |s| && r[i] == s[offset + i]
  {
    if offset >= |s| then [] else s[offset .. offset + Min(limit, |s| - offset)]
  }

  /** A prefix followed by the window that starts where it ends is the
      longer prefix. */
  lemma WindowAfterPrefix<T>(s: seq<T>, offset: nat, limit: nat)
    ensures s[..Min(offset, |s|)] + Window(s, offset, limit) == s[..Min(offset + limit, |s|)]
  {
    var a := s[..Min(offset, |s|)];
    var b := Window(s, offset, limit);
    var c := s[..Min(offset + limit, |s|)];
    assert |a + b| == |c|;
    forall i | 0 <= i < |c|
      ensures (a + b)[i] == c[i]
    {
      if i >= |a| {
        assert (a + b)[i] == b[i - |a|];
      }
    }
  }

  /** `q` occurs in `s` starting at position `i`. */
  predicate OccursAt<T(==)>(s: seq<T>, q: seq<T>, i: int) {
    0 <= i <= |s| - |q| && s[i..i + |q|] == q
  }

  /** Keys strictly increase along `s` (a table read in creation order). */
  ghost predicate Ascending<T>(s: seq<T>, key: T -> int) {
    forall i, j :: 0 <= i < j < |s| ==> key(s[i]) < key(s[j])
  }

  /** Keys strictly decrease along `s` (newest first). */
  ghost predicate Descending<T>(s: seq<T>, key: T -> int) {
    forall i, j :: 0 <= i < j < |s| ==> key(s[i]) > key(s[j])
  }

  lemma {:induction false} FilterKeepsAscending<T>(s: seq<T>, f: T -> bool, key: T -> int)
    ensures Ascending(s, key) ==> Ascending(Filter(s, f), key)
  {
    if |s| > 0 && Ascending(s, key) {
      FilterKeepsAscending(s[1..], f, key);
      var rest := Filter(s[1..], f);
      forall y | y in rest
        ensures key(s[0]) < key(y)
      {
        var j :| 0 <= j < |s[1..]| && s[1..][j] == y;
        assert s[j + 1] == y;
      }
    }
  }

  lemma {:induction false} FilterAppend<T>(s: seq<T>, x: T, f: T -> bool)
    ensures Filter(s + [x], f) == Filter(s, f) + (if f(x) then [x] else [])
  {
    if |s| == 0 {
      assert s + [x] == [x];
    } else {
      assert (s + [x])[1..] == s[1..] + [x];
      FilterAppend(s[1..], x, f);
    }
  }

  /** Two tests that agree on every element of `s` filter it alike. */
  lemma {:induction false} FilterSameTest<T>(s: seq<T>, f: T -> bool, g: T -> bool)
    requires forall i :: 0 <= i < |s| ==> f(s[i]) == g(s[i])
    ensures Filter(s, f) == Filter(s, g)
  {
    if |s| > 0 {
      FilterSameTest(s[1..], f, g);
      assert f(s[0]) == g(s[0]);
    }
  }

  lemma ReverseSnoc<T>(s: seq<T>, x: T)
    ensures Reverse(s + [x]) == [x] + Reverse(s)
  {
    assert |Reverse(s + [x])| == |[x] + Reverse(s)|;
  }

  lemma ReverseOfAscending<T>(s: seq<T>, key: T -> int)
    ensures Ascending(s, key) ==> Descending(Reverse(s), key)
  {
  }

  /** An element of a descending sequence that is not among its first `k`
      elements comes after at least `k` elements, each with a larger key. */
  lemma DescendingMissedPrefix<T>(s: seq<T>, k: nat, key: T -> int, x: T)
    requires Descending(s, key) && x in s
    requires forall i :: 0 <= i < Min(k, |s|) ==> s[i] != x
    ensures k < |s|
    ensures forall i :: 0 <= i < k ==> key(s[i]) > key(x)
  {
    var m :| 0 <= m < |s| && s[m] == x;
  }

  /** Two elements of an ascending sequence with the same key are the same. */
  lemma AscendingKeyUnique<T>(s: seq<T>, key: T -> int, x: T, y: T)
    requires Ascending(s, key)
    requires x in s && y in s && key(x) == key(y)
    ensures x == y
  {
    var i :| 0 <= i < |s| && s[i] == x;
    var j :| 0 <= j < |s| && s[j] == y;
    if i < j {
    } else if j < i {
    }
  }
}
