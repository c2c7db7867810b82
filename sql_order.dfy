/**
 * What `ORDER BY <key> ASC` means for the list queries of the DAOs.
 *
 * Each query orders by `CASE WHEN :orderBy = '<field>' THEN <field> END`
 * for several fields in turn. For a given `orderBy` at most one of those
 * CASE columns is non-NULL, so the order is by that one field, and when
 * `orderBy` names no field every CASE column is NULL and no order is
 * imposed. SQLite compares NULL below numbers and numbers below text;
 * text under the default BINARY collation compares code point by code
 * point (the UTF-8 bytes compare in the same order), a prefix first.
 * Ties keep no particular order.
 */
module SqlOrder {

  datatype SortKey = Null | Num(n: int) | Text(s: string)

  /** Lexicographic order on strings, a proper prefix first. */
  predicate TextLeq(a: string, b: string)
    decreases |a|
  {
    a == [] || (b != [] && (a[0] < b[0] || (a[0] == b[0] && TextLeq(a[1..], b[1..]))))
  }

  predicate KeyLeq(a: SortKey, b: SortKey)
  {
    match (a, b)
    case (Null, _) => true
    case (_, Null) => false
    case (Num(x), Num(y)) => x <= y
    case (Num(_), Text(_)) => true
    case (Text(_), Num(_)) => false
    case (Text(x), Text(y)) => TextLeq(x, y)
  }

  lemma {:induction false} TextLeqTotal(a: string, b: string)
    ensures TextLeq(a, b) || TextLeq(b, a)
    decreases |a|
  {
    if a != [] && b != [] && a[0] == b[0] {
      TextLeqTotal(a[1..], b[1..]);
    }
  }

  lemma {:induction false} TextLeqTrans(a: string, b: string, c: string)
    requires TextLeq(a, b) && TextLeq(b, c)
    ensures TextLeq(a, c)
    decreases |a|
  {
    if a != [] && a[0] == b[0] && b[0] == c[0] {
      TextLeqTrans(a[1..], b[1..], c[1..]);
    }
  }

  /** The comparison of ORDER BY is a total preorder, so sorting by it is well defined. */
  lemma KeyLeqTotal(a: SortKey, b: SortKey)
    ensures KeyLeq(a, b) || KeyLeq(b, a)
  {
    if a.Text? && b.Text? {
      TextLeqTotal(a.s, b.s);
    }
  }

  lemma KeyLeqTrans(a: SortKey, b: SortKey, c: SortKey)
    requires KeyLeq(a, b) && KeyLeq(b, c)
    ensures KeyLeq(a, c)
  {
    if a.Text? && b.Text? && c.Text? {
      TextLeqTrans(a.s, b.s, c.s);
    }
  }

  ghost predicate SortedBy<T>(s: seq<T>, key: T -> SortKey)
  {
    forall i, j :: 0 <= i < j < |s| ==> KeyLeq(key(s[i]), key(s[j]))
  }

  ghost predicate Distinct<T>(s: seq<T>)
  {
    forall i, j :: 0 <= i < j < |s| ==> s[i] != s[j]
  }

  /** Places `x` after every row whose key is not above its own. */
  ghost function InsertSorted<T>(x: T, s: seq<T>, key: T -> SortKey): (r: seq<T>)
    requires SortedBy(s, key)
    ensures SortedBy(r, key)
    ensures multiset(r) == multiset(s) + multiset{x}
    decreases |s|
  {
    if s == [] then [x]
    else if KeyLeq(key(x), key(s[0])) then
      assert forall j :: 0 <= j < |s| ==> KeyLeq(key(x), key(s[j])) by {
        forall j | 0 <= j < |s| ensures KeyLeq(key(x), key(s[j])) {
          if j > 0 { KeyLeqTrans(key(x), key(s[0]), key(s[j])); }
        }
      }
      [x] + s
    else
      KeyLeqTotal(key(x), key(s[0]));
      var rest := InsertSorted(x, s[1..], key);
      assert forall k :: 0 <= k < |rest| ==> KeyLeq(key(s[0]), key(rest[k])) by {
        forall k | 0 <= k < |rest| ensures KeyLeq(key(s[0]), key(rest[k])) {
          assert rest[k] in multiset(rest);
          assert rest[k] == x || rest[k] in multiset(s[1..]);
          if rest[k] != x {
            var j :| 0 <= j < |s[1..]| && s[1..][j] == rest[k];
            assert s[j + 1] == rest[k];
          }
        }
      }
      assert s == [s[0]] + s[1..];
      [s[0]] + rest
  }

  /**
   * The rows of a table (a set: SQL rows have no order of their own)
   * listed ascending by `key`, each row once.
   */
  ghost function SortSet<T(!new)>(rows: set<T>, key: T -> SortKey): (r: seq<T>)
    ensures |r| == |rows| && Distinct(r)
    ensures forall x :: x in r <==> x in rows
    ensures SortedBy(r, key)
    decreases |rows|
  {
    if rows == {} then []
    else
      var x :| x in rows;
      var rest := SortSet(rows - {x}, key);
      var r := InsertSorted(x, rest, key);
      assert multiset(r) == multiset(rest) + multiset{x};
      assert forall y :: y in r <==> y in rows by {
        forall y ensures y in r <==> y in rows {
          assert y in r <==> y in multiset(r);
          assert y in rest <==> y in multiset(rest);
        }
      }
      assert Distinct(r) by {
        DistinctOfMultiset(r, rest, x);
      }
      r
  }

  lemma DistinctOfMultiset<T>(r: seq<T>, rest: seq<T>, x: T)
    requires Distinct(rest) && x !in rest
    requires multiset(r) == multiset(rest) + multiset{x}
    ensures Distinct(r)
  {
    forall y ensures multiset(r)[y] <= 1 {
      DistinctCount(rest, y);
      assert y !in multiset(rest) || multiset(rest)[y] <= 1;
    }
    forall i, j | 0 <= i < j < |r| ensures r[i] != r[j] {
      if r[i] == r[j] {
        CountTwo(r, i, j);
      }
    }
  }

  lemma {:induction false} DistinctCount<T>(s: seq<T>, y: T)
    requires Distinct(s)
    ensures multiset(s)[y] <= 1
    decreases |s|
  {
    if s != [] {
      assert s == [s[0]] + s[1..];
      DistinctCount(s[1..], y);
      if s[0] == y {
        assert y !in s[1..];
      }
    }
  }

  lemma {:induction false} CountTwo<T>(s: seq<T>, i: nat, j: nat)
    requires i < j < |s| && s[i] == s[j]
    ensures multiset(s)[s[i]] >= 2
    decreases |s|
  {
    assert s == s[..j] + [s[j]] + s[j + 1..];
    assert s[i] in s[..j];
    assert multiset(s[..j])[s[i]] >= 1;
  }
}
