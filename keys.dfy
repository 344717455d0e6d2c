/**
 * Primary keys of the two tables.  Both tables declare an integer primary
 * key and leave it to the store, which gives a new row one more than the
 * largest id in the table (1 in an empty table) and returns rows of a full
 * table scan in ascending id order.
 */
module Keys {

  /** A set is empty or has a member. */
  lemma EmptyOrMember(s: set<int>)
    ensures s == {} || exists m :: m in s
  {
    if forall m :: m !in s {
      assert s == {};
    }
  }

  /** A finite non-empty set of ids has a least element. */
  lemma {:induction false} LeastExists(s: set<int>)
    requires s != {}
    ensures exists m :: m in s && forall x :: x in s ==> m <= x
    decreases |s|
  {
    EmptyOrMember(s);
    var y :| y in s;
    if !forall x :: x in s ==> y <= x {
      var x :| x in s && x < y;
      var rest := s - {y};
      assert x in rest;
      LeastExists(rest);
      var m :| m in rest && forall z :: z in rest ==> m <= z;
      forall z | z in s ensures m <= z {
        if z != y { assert z in rest; }
      }
      assert m in s;
    }
  }

  /** The least id of a non-empty table. */
  function Least(s: set<int>): (m: int)
    requires s != {}
    ensures m in s && forall x :: x in s ==> m <= x
  {
    LeastExists(s);
    var m :| m in s && forall x :: x in s ==> m <= x;
    m
  }

  /** `r` lists every id of `s` exactly once, in ascending order. */
  ghost predicate ListsAscending(r: seq<int>, s: set<int>)
  {
    && |r| == |s|
    && (forall i :: 0 <= i < |r| ==> r[i] in s)
    && (forall x :: x in s ==> x in r)
    && (forall i, j :: 0 <= i < j < |r| ==> r[i] < r[j])
  }

  /** Putting the least id in front of an ascending listing of the others lists the whole table. */
  lemma PrependLeast(s: set<int>, m: int, rest: seq<int>)
    requires m in s && forall x :: x in s ==> m <= x
    requires ListsAscending(rest, s - {m})
    ensures ListsAscending([m] + rest, s)
  {
    var r := [m] + rest;
    assert |s - {m}| == |s| - 1;
    assert forall x :: x in s ==> x in r by {
      forall x | x in s ensures x in r {
        if x != m { assert x in s - {m}; }
      }
    }
    assert forall i, j :: 0 <= i < j < |r| ==> r[i] < r[j] by {
      forall i, j | 0 <= i < j < |r| ensures r[i] < r[j] {
        assert r[j] == rest[j - 1] && rest[j - 1] in s - {m};
        if i > 0 { assert r[i] == rest[i - 1]; }
      }
    }
  }

  /** The ids of a table in the order a full scan returns them. */
  function AscendingIds(s: set<int>): (r: seq<int>)
    ensures ListsAscending(r, s)
    decreases |s|
  {
    if s == {} then []
    else
      var m := Least(s);
      var rest := AscendingIds(s - {m});
      PrependLeast(s, m, rest);
      [m] + rest
  }

  /** The id the store gives the next row inserted into a table with the given ids. */
  function NextId(ids: set<int>): (r: int)
    ensures r !in ids
    ensures forall k :: k in ids ==> k < r
    ensures ids == {} ==> r == 1
    ensures ids != {} ==> r - 1 in ids
  {
    if ids == {} then 1
    else
      var asc := AscendingIds(ids);
      assert forall k :: k in ids ==> k <= asc[|asc| - 1] by {
        forall k | k in ids ensures k <= asc[|asc| - 1] {
          var i :| 0 <= i < |asc| && asc[i] == k;
        }
      }
      asc[|asc| - 1] + 1
  }
}
