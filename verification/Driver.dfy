/** The part of the MongoDB Java driver that the data-access objects rely on, over
    in-memory collections. A collection is a sequence of documents in natural order.
    Every filter the DAOs build is an equality test `Filters.eq(field, value)`,
    written here as a field accessor `field: T -> K` and a value `v: K`. */
module Driver {

  datatype Option<+T> = None | Some(value: T)

  /** The exception kinds that can leave a DAO method. */
  datatype Exception =
    | MongoException            // raised by the driver: network, write or duplicate-key failures
    | IllegalArgumentException  // raised by `new ObjectId(s)` on a malformed id, or rethrown as such
    | IncorrectDaoOperation     // the application's own wrapper exception

  /** What a DAO method does: return a value, or throw one of the kinds above. */
  datatype Outcome<+T> = Ok(value: T) | Thrown(exception: Exception)

  /** Which driver call of one DAO operation fails, if any. Calls are numbered from 0 in
      the order the operation issues them. The failing call throws a MongoException and has
      no effect; the calls before it took effect and no call after it is issued. */
  datatype Fault = Healthy | FailsAt(call: nat) {
    predicate Fails(k: nat) { FailsAt? && call == k }
  }

  /** Some document of `s` matches `eq(field, v)`. */
  predicate HasMatch<T, K(==)>(s: seq<T>, field: T -> K, v: K) {
    exists i :: 0 <= i < |s| && field(s[i]) == v
  }

  /** `i` is the position of the first document of `s` that matches `eq(field, v)`. */
  predicate IsFirstMatch<T, K(==)>(s: seq<T>, field: T -> K, v: K, i: nat) {
    i < |s| && field(s[i]) == v && forall j :: 0 <= j < i ==> field(s[j]) != v
  }

  /** No two documents of `s` share a value of `field` (a unique index on it). */
  predicate UniqueKeys<T, K(==)>(s: seq<T>, field: T -> K) {
    forall i, j :: 0 <= i < j < |s| ==> field(s[i]) != field(s[j])
  }

  /** Position of the first match, the document that `first()`, `updateOne` and
      `deleteOne` act on. */
  function FirstIndex<T, K(==)>(s: seq<T>, field: T -> K, v: K): (r: Option<nat>)
    ensures r.None? <==> !HasMatch(s, field, v)
    ensures r.Some? ==> IsFirstMatch(s, field, v, r.value)
  {
    if s == [] then None
    else if field(s[0]) == v then Some(0)
    else match FirstIndex(s[1..], field, v)
      case None =>
        assert forall i :: 1 <= i < |s| ==> s[i] == s[1..][i - 1];
        None
      case Some(k) =>
        assert s[k + 1] == s[1..][k];
        assert forall j :: 1 <= j < k + 1 ==> s[j] == s[1..][j - 1];
        Some(k + 1)
  }

  /** `find(eq(field, v)).first()`: the first matching document, or none (Java's null). */
  function FindFirst<T, K(==)>(s: seq<T>, field: T -> K, v: K): (r: Option<T>)
    ensures r.None? <==> !HasMatch(s, field, v)
    ensures r.Some? ==> exists i: nat :: IsFirstMatch(s, field, v, i) && s[i] == r.value
  {
    match FirstIndex(s, field, v)
    case None => None
    case Some(i) => Some(s[i])
  }

  /** Every matching document, in collection order: what `find(eq(field, v))` iterates over. */
  function Select<T(!new), K(==)>(s: seq<T>, field: T -> K, v: K): (r: seq<T>)
    ensures forall x :: x in r <==> x in s && field(x) == v
    ensures |r| <= |s|
  {
    if s == [] then []
    else (if field(s[0]) == v then [s[0]] else []) + Select(s[1..], field, v)
  }

  /** `deleteMany(eq(field, v))`: every matching document goes, the others stay. */
  function DeleteMany<T(!new), K(==)>(s: seq<T>, field: T -> K, v: K): (r: seq<T>)
    ensures forall x :: x in r <==> x in s && field(x) != v
    ensures !HasMatch(s, field, v) ==> r == s
    ensures |r| <= |s|
  {
    if s == [] then []
    else if field(s[0]) == v then DeleteMany(s[1..], field, v)
    else
      assert !HasMatch(s, field, v) ==> !HasMatch(s[1..], field, v) by {
        if HasMatch(s[1..], field, v) {
          var i :| 0 <= i < |s[1..]| && field(s[1..][i]) == v;
          assert field(s[i + 1]) == v;
        }
      }
      [s[0]] + DeleteMany(s[1..], field, v)
  }

  /** `deleteOne(eq(field, v))`: only the first matching document goes. */
  function DeleteOne<T, K(==)>(s: seq<T>, field: T -> K, v: K): (r: seq<T>)
    ensures !HasMatch(s, field, v) ==> r == s
    ensures HasMatch(s, field, v) ==>
      exists i: nat :: IsFirstMatch(s, field, v, i) && r == s[..i] + s[i + 1..]
  {
    match FirstIndex(s, field, v)
    case None => s
    case Some(i) => s[..i] + s[i + 1..]
  }

  /** Deleting the matches of `v` leaves the documents matching any other value, in order. */
  lemma {:induction false} SelectAfterDeleteMany<T(!new), K>(s: seq<T>, field: T -> K, v: K, w: K)
    ensures Select(DeleteMany(s, field, v), field, w) == if w == v then [] else Select(s, field, w)
  {
    if s != [] {
      SelectAfterDeleteMany(s[1..], field, v, w);
    }
  }

  /** Appending `x` (`insertOne`) adds `x` to the matches of its own key and nowhere else. */
  lemma {:induction false} SelectAppend<T(!new), K>(s: seq<T>, x: T, field: T -> K, w: K)
    ensures Select(s + [x], field, w) == Select(s, field, w) + (if field(x) == w then [x] else [])
  {
    if s == [] {
      assert s + [x] == [x];
    } else {
      assert (s + [x])[1..] == s[1..] + [x];
      SelectAppend(s[1..], x, field, w);
    }
  }

  /** After appending a document whose key was absent, `first()` on that key finds it. */
  lemma FindFirstAppendFresh<T, K>(s: seq<T>, x: T, field: T -> K)
    requires !HasMatch(s, field, field(x))
    ensures FindFirst(s + [x], field, field(x)) == Some(x)
  {
    var t := s + [x];
    assert field(t[|s|]) == field(x);
    assert forall j :: 0 <= j < |s| ==> t[j] == s[j] && field(t[j]) != field(x);
    var i := FirstIndex(t, field, field(x)).value;
    assert i == |s|;
  }

  /** Under a unique key, `first()` on the key of a stored document finds that document. */
  lemma FindFirstUnique<T, K>(s: seq<T>, field: T -> K, x: T)
    requires UniqueKeys(s, field) && x in s
    ensures FindFirst(s, field, field(x)) == Some(x)
  {
    var k :| 0 <= k < |s| && s[k] == x;
    assert field(s[k]) == field(x);
    var i := FirstIndex(s, field, field(x)).value;
    assert i == k;
  }

  /** A key is unique in `[x] + t` exactly when it is unique in `t` and `x`'s key is not in `t`. */
  lemma UniqueKeysCons<T, K>(x: T, t: seq<T>, field: T -> K)
    ensures UniqueKeys([x] + t, field) <==>
      UniqueKeys(t, field) && forall y :: y in t ==> field(y) != field(x)
  {
    var s := [x] + t;
    assert forall j :: 1 <= j < |s| ==> s[j] == t[j - 1];
    if UniqueKeys(t, field) && forall y :: y in t ==> field(y) != field(x) {
      forall i, j | 0 <= i < j < |s| ensures field(s[i]) != field(s[j]) {
        assert s[j] == t[j - 1] && s[j] in t;
      }
    }
    if UniqueKeys(s, field) {
      assert s[0] == x;
      forall y | y in t ensures field(y) != field(x) {
        var j :| 0 <= j < |t| && t[j] == y;
        assert s[j + 1] == y;
      }
      forall i, j | 0 <= i < j < |t| ensures field(t[i]) != field(t[j]) {
        assert s[i + 1] == t[i] && s[j + 1] == t[j];
      }
    }
  }

  /** Appending a document whose key is absent keeps the key unique. */
  lemma UniqueKeysAppend<T, K>(s: seq<T>, x: T, field: T -> K)
    requires UniqueKeys(s, field) && !HasMatch(s, field, field(x))
    ensures UniqueKeys(s + [x], field)
  {
    var t := s + [x];
    forall i, j | 0 <= i < j < |t| ensures field(t[i]) != field(t[j]) {
      if j == |s| {
        assert t[i] == s[i];
      } else {
        assert t[i] == s[i] && t[j] == s[j];
      }
    }
  }

  /** `deleteMany` on any filter keeps a key unique. */
  lemma {:induction false} UniqueKeysDeleteMany<T(!new), K, L>(s: seq<T>, key: T -> K, field: T -> L, v: L)
    requires UniqueKeys(s, key)
    ensures UniqueKeys(DeleteMany(s, field, v), key)
  {
    if s != [] {
      assert UniqueKeys(s[1..], key) by {
        forall i, j | 0 <= i < j < |s[1..]| ensures key(s[1..][i]) != key(s[1..][j]) {
          assert s[1..][i] == s[i + 1] && s[1..][j] == s[j + 1];
        }
      }
      UniqueKeysDeleteMany(s[1..], key, field, v);
      if field(s[0]) != v {
        var rest := DeleteMany(s[1..], field, v);
        var r := [s[0]] + rest;
        forall i, j | 0 <= i < j < |r| ensures key(r[i]) != key(r[j]) {
          if i == 0 {
            assert r[j] == rest[j - 1] && rest[j - 1] in s[1..];
            var k :| 0 <= k < |s[1..]| && s[1..][k] == r[j];
            assert s[k + 1] == r[j];
          } else {
            assert r[i] == rest[i - 1] && r[j] == rest[j - 1];
          }
        }
      }
    }
  }

  /** Under a unique key, `deleteOne` removes the only match: afterwards nothing matches,
      the key stays unique, and every other document remains. */
  lemma UniqueKeysDeleteOne<T(!new), K>(s: seq<T>, field: T -> K, v: K)
    requires UniqueKeys(s, field)
    ensures var r := DeleteOne(s, field, v);
      && !HasMatch(r, field, v)
      && UniqueKeys(r, field)
      && (forall x :: x in s && field(x) != v ==> x in r)
      && |r| == if HasMatch(s, field, v) then |s| - 1 else |s|
  {
    var r := DeleteOne(s, field, v);
    if HasMatch(s, field, v) {
      var i: nat :| IsFirstMatch(s, field, v, i) && r == s[..i] + s[i + 1..];
      assert forall k :: 0 <= k < |r| ==> r[k] == if k < i then s[k] else s[k + 1];
      forall k | 0 <= k < |r| ensures field(r[k]) != v {
        if k >= i {
          assert field(s[i]) != field(s[k + 1]);
        }
      }
      forall x | x in s && field(x) != v ensures x in r {
        var k :| 0 <= k < |s| && s[k] == x;
        if k < i {
          assert r[k] == x;
        } else {
          assert k != i;
          assert r[k - 1] == x;
        }
      }
    }
  }

  /** Overwriting the first match with a document carrying the same key keeps the key unique
      and makes `first()` return the new document. */
  lemma UpdateFirstMatch<T, K>(s: seq<T>, field: T -> K, v: K, i: nat, x: T)
    requires IsFirstMatch(s, field, v, i) && field(x) == v
    ensures UniqueKeys(s, field) ==> UniqueKeys(s[i := x], field)
    ensures FindFirst(s[i := x], field, v) == Some(x)
  {
    var t := s[i := x];
    assert field(t[i]) == v;
    var k: nat :| IsFirstMatch(t, field, v, k) && t[k] == FindFirst(t, field, v).value;
    if k < i {
      assert t[k] == s[k];
    } else if k > i {
      assert field(t[i]) == v;
    }
  }
}
