/** The "most active commenters" report: the aggregation pipeline
    `group("$email", sum("count", 1))`, `sort(descending("count"))`, `limit(20)` over the
    `comments` collection, as functions over its documents. The database leaves the order of
    groups with equal counts open; IsLeaderboard states the report's contract with that
    freedom, and Leaderboard is one pipeline result that meets it. */
module CommenterReport {
  import opened Driver
  import opened Models

  /** The `limit` stage. */
  const TopN: nat := 20

  /** The size of the group of `email`: how many comments carry it. */
  function CountOf(cs: seq<Comment>, email: string): (r: nat)
    ensures r <= |cs|
    ensures r > 0 <==> HasMatch(cs, CommentEmail, email)
  {
    var m := Select(cs, CommentEmail, email);
    assert HasMatch(cs, CommentEmail, email) ==> m != [] by {
      if HasMatch(cs, CommentEmail, email) {
        var i :| 0 <= i < |cs| && CommentEmail(cs[i]) == email;
        assert cs[i] in m;
      }
    }
    assert m != [] ==> HasMatch(cs, CommentEmail, email) by {
      if m != [] {
        assert m[0] in cs;
      }
    }
    |m|
  }

  /** `sum("count", 1)`: no comments give every group the size 0, and each further comment
      adds one to the group of its own email and to no other. */
  lemma CountOfAppend(cs: seq<Comment>, c: Comment, email: string)
    ensures CountOf([], email) == 0
    ensures CountOf(cs + [c], email) == CountOf(cs, email) + if c.email == email then 1 else 0
  {
    SelectAppend(cs, c, CommentEmail, email);
  }

  /** The `$group` keys: each author email once. */
  function Authors(cs: seq<Comment>): (r: seq<string>)
    ensures forall e :: e in r <==> HasMatch(cs, CommentEmail, e)
    ensures forall i, j :: 0 <= i < j < |r| ==> r[i] != r[j]
  {
    if cs == [] then []
    else
      var rest := Authors(cs[1..]);
      assert forall e :: HasMatch(cs, CommentEmail, e) <==> cs[0].email == e || HasMatch(cs[1..], CommentEmail, e) by {
        forall e | HasMatch(cs, CommentEmail, e) && cs[0].email != e ensures HasMatch(cs[1..], CommentEmail, e) {
          var i :| 0 <= i < |cs| && CommentEmail(cs[i]) == e;
          assert CommentEmail(cs[1..][i - 1]) == e;
        }
        forall e | HasMatch(cs[1..], CommentEmail, e) ensures HasMatch(cs, CommentEmail, e) {
          var i :| 0 <= i < |cs[1..]| && CommentEmail(cs[1..][i]) == e;
          assert CommentEmail(cs[i + 1]) == e;
        }
      }
      if cs[0].email in rest then rest else [cs[0].email] + rest
  }

  /** The `$group` stage: one row per author email with the size of its group. */
  function Tally(cs: seq<Comment>): (r: seq<Critic>)
    ensures |r| == |Authors(cs)|
    ensures forall k :: k in r <==> HasMatch(cs, CommentEmail, k.email) && k.count == CountOf(cs, k.email)
    ensures UniqueKeys(r, CriticEmail)
  {
    var authors := Authors(cs);
    var r := seq(|authors|, i requires 0 <= i < |authors| => Critic(authors[i], CountOf(cs, authors[i])));
    assert forall k: Critic :: HasMatch(cs, CommentEmail, k.email) && k.count == CountOf(cs, k.email) ==> k in r by {
      forall k: Critic | HasMatch(cs, CommentEmail, k.email) && k.count == CountOf(cs, k.email) ensures k in r {
        var i :| 0 <= i < |authors| && authors[i] == k.email;
        assert r[i] == k;
      }
    }
    r
  }

  /** Rows in the order of `sort(descending("count"))`. */
  predicate ByCountDescending(r: seq<Critic>) {
    forall i, j :: 0 <= i < j < |r| ==> r[i].count >= r[j].count
  }

  /** Puts `k` into a descending sequence at the first place that keeps it descending. */
  function InsertByCount(k: Critic, s: seq<Critic>): (r: seq<Critic>)
    requires ByCountDescending(s)
    ensures |r| == |s| + 1
    ensures multiset(r) == multiset(s) + multiset{k}
    ensures forall x :: x in r <==> x == k || x in s
    ensures ByCountDescending(r)
    ensures UniqueKeys(s, CriticEmail) && (forall x :: x in s ==> x.email != k.email) ==> UniqueKeys(r, CriticEmail)
  {
    if s == [] || k.count >= s[0].count then
      InsertAtHead(k, s);
      [k] + s
    else
      var rest := InsertByCount(k, s[1..]);
      assert s == [s[0]] + s[1..];
      BelowHeadOrder(k, s, rest);
      assert UniqueKeys(s, CriticEmail) && (forall x :: x in s ==> x.email != k.email) ==>
        UniqueKeys([s[0]] + rest, CriticEmail) by {
        if UniqueKeys(s, CriticEmail) && (forall x :: x in s ==> x.email != k.email) {
          UniqueKeysCons(s[0], s[1..], CriticEmail);
          BelowHeadUnique(k, s, rest);
        }
      }
      [s[0]] + rest
  }

  /** The step of InsertByCount that puts `k` first: nothing in `s` outranks it. */
  lemma InsertAtHead(k: Critic, s: seq<Critic>)
    requires ByCountDescending(s) && (s == [] || k.count >= s[0].count)
    ensures ByCountDescending([k] + s)
    ensures UniqueKeys(s, CriticEmail) && (forall x :: x in s ==> x.email != k.email) ==>
      UniqueKeys([k] + s, CriticEmail)
  {
    var r := [k] + s;
    assert forall j :: 1 <= j < |r| ==> r[j] == s[j - 1];
    UniqueKeysCons(k, s, CriticEmail);
  }

  /** The step of InsertByCount that keeps the head: the head outranks everything after it. */
  lemma BelowHeadOrder(k: Critic, s: seq<Critic>, rest: seq<Critic>)
    requires ByCountDescending(s) && s != [] && k.count < s[0].count
    requires forall x :: x in rest ==> x == k || x in s[1..]
    requires ByCountDescending(rest)
    ensures ByCountDescending([s[0]] + rest)
  {
    var r := [s[0]] + rest;
    forall x | x in s[1..] ensures x.count <= s[0].count {
      var j :| 0 <= j < |s[1..]| && s[1..][j] == x;
      assert s[j + 1] == x;
    }
    assert forall j :: 1 <= j < |r| ==> r[j] == rest[j - 1] && r[j] in rest;
  }

  /** The step of InsertByCount that keeps the head: the head's email stays unique. */
  lemma BelowHeadUnique(k: Critic, s: seq<Critic>, rest: seq<Critic>)
    requires s != [] && s[0].email != k.email
    requires forall x :: x in s[1..] ==> x.email != s[0].email
    requires forall x :: x in rest ==> x == k || x in s[1..]
    requires UniqueKeys(rest, CriticEmail)
    ensures UniqueKeys([s[0]] + rest, CriticEmail)
  {
    UniqueKeysCons(s[0], rest, CriticEmail);
  }

  /** The `$sort` stage: the rows of `s`, by count, largest first. */
  function SortByCount(s: seq<Critic>): (r: seq<Critic>)
    ensures |r| == |s|
    ensures multiset(r) == multiset(s)
    ensures forall x :: x in r <==> x in s
    ensures ByCountDescending(r)
    ensures UniqueKeys(s, CriticEmail) ==> UniqueKeys(r, CriticEmail)
  {
    if s == [] then []
    else
      var rest := SortByCount(s[1..]);
      assert s == [s[0]] + s[1..];
      assert UniqueKeys(s, CriticEmail) ==>
        UniqueKeys(rest, CriticEmail) && forall x :: x in rest ==> x.email != s[0].email by {
        UniqueKeysCons(s[0], s[1..], CriticEmail);
      }
      InsertByCount(s[0], rest)
  }

  /** What the report promises, ties in any order: at most TopN rows with distinct emails,
      each carrying the true comment count of an author, counts non-increasing, and an author
      left out only when the report is full and the author has no more comments than the
      last row. */
  ghost predicate IsLeaderboard(cs: seq<Comment>, r: seq<Critic>) {
    && |r| <= TopN
    && UniqueKeys(r, CriticEmail)
    && (forall k :: k in r ==> HasMatch(cs, CommentEmail, k.email) && k.count == CountOf(cs, k.email))
    && ByCountDescending(r)
    && (forall e :: HasMatch(cs, CommentEmail, e) && !HasMatch(r, CriticEmail, e) ==>
          |r| == TopN && CountOf(cs, e) <= r[TopN - 1].count)
  }

  /** One result of the whole pipeline: group, sort, then keep the first TopN rows. It meets
      the report's contract. */
  function Leaderboard(cs: seq<Comment>): (r: seq<Critic>)
    ensures IsLeaderboard(cs, r)
  {
    var sorted := SortByCount(Tally(cs));
    TopRowsOfSorted(cs, sorted);
    if |sorted| <= TopN then sorted else sorted[..TopN]
  }

  /** The `$limit` stage: the first TopN rows of a sorted, complete tally meet the report's
      contract. */
  lemma TopRowsOfSorted(cs: seq<Comment>, sorted: seq<Critic>)
    requires UniqueKeys(sorted, CriticEmail) && ByCountDescending(sorted)
    requires forall k :: k in sorted <==> HasMatch(cs, CommentEmail, k.email) && k.count == CountOf(cs, k.email)
    ensures IsLeaderboard(cs, if |sorted| <= TopN then sorted else sorted[..TopN])
  {
    var r := if |sorted| <= TopN then sorted else sorted[..TopN];
    assert |r| <= |sorted| && forall i :: 0 <= i < |r| ==> r[i] == sorted[i];
    assert UniqueKeys(r, CriticEmail);
    assert ByCountDescending(r);
    forall k | k in r ensures HasMatch(cs, CommentEmail, k.email) && k.count == CountOf(cs, k.email) {
      var i :| 0 <= i < |r| && r[i] == k;
      assert sorted[i] in sorted;
    }
    forall e | HasMatch(cs, CommentEmail, e) && !HasMatch(r, CriticEmail, e)
      ensures |r| == TopN && CountOf(cs, e) <= r[TopN - 1].count
    {
      var k := Critic(e, CountOf(cs, e));
      assert k in sorted;
      var j :| 0 <= j < |sorted| && sorted[j] == k;
      assert forall i :: 0 <= i < |r| ==> CriticEmail(sorted[i]) != e;
      assert j >= |r|;
    }
  }

  /** A sequence without repeats has as many distinct elements as positions. */
  lemma {:induction false} DistinctCardinality<T>(s: seq<T>)
    requires forall i, j :: 0 <= i < j < |s| ==> s[i] != s[j]
    ensures |set x | x in s| == |s|
  {
    if s != [] {
      assert forall i, j :: 0 <= i < j < |s[1..]| ==> s[1..][i] == s[i + 1] && s[1..][j] == s[j + 1];
      DistinctCardinality(s[1..]);
      assert forall j :: 0 <= j < |s[1..]| ==> s[1..][j] == s[j + 1] && s[j + 1] != s[0];
      assert (set x | x in s) == {s[0]} + (set x | x in s[1..]);
    }
  }

  /** A subset at least as large as its superset is the whole superset. */
  lemma {:induction false} SubsetAsLarge<T>(a: set<T>, b: set<T>)
    requires a <= b && |b| <= |a|
    ensures a == b
  {
    if a != {} {
      var x :| x in a;
      SubsetAsLarge(a - {x}, b - {x});
    }
  }

  /** The emails of the rows of a report, row by row. */
  function EmailsOf(r: seq<Critic>): (e: seq<string>)
    ensures |e| == |r| && forall i :: 0 <= i < |r| ==> e[i] == r[i].email
  {
    seq(|r|, i requires 0 <= i < |r| => r[i].email)
  }

  /** A report whose rows carry authors' emails, each once, names as many authors as it has
      rows, all of them among the authors. */
  lemma ListedAuthors(cs: seq<Comment>, r: seq<Critic>)
    requires UniqueKeys(r, CriticEmail)
    requires forall k :: k in r ==> HasMatch(cs, CommentEmail, k.email)
    ensures |set x | x in EmailsOf(r)| == |r|
    ensures (set x | x in EmailsOf(r)) <= (set x | x in Authors(cs))
    ensures |set x | x in Authors(cs)| == |Authors(cs)|
  {
    var emails := EmailsOf(r);
    assert forall i, j :: 0 <= i < j < |emails| ==> CriticEmail(r[i]) != CriticEmail(r[j]);
    DistinctCardinality(emails);
    DistinctCardinality(Authors(cs));
    forall x | x in emails ensures x in Authors(cs) {
      var i :| 0 <= i < |r| && emails[i] == x;
      assert r[i] in r;
    }
  }

  /** When there are at most TopN authors, every report the contract accepts lists every one
      of them, once each, whatever the order of ties. */
  lemma FewAuthorsAllListed(cs: seq<Comment>, r: seq<Critic>)
    requires IsLeaderboard(cs, r) && |Authors(cs)| <= TopN
    ensures forall e :: HasMatch(cs, CommentEmail, e) ==> HasMatch(r, CriticEmail, e)
    ensures |r| == |Authors(cs)|
  {
    var listed := set x | x in EmailsOf(r);
    var all := set x | x in Authors(cs);
    ListedAuthors(cs, r);
    if |r| == TopN {
      SubsetAsLarge(listed, all);
    } else {
      forall e | e in all ensures e in listed {
        assert HasMatch(cs, CommentEmail, e);
        assert HasMatch(r, CriticEmail, e);
        var i :| 0 <= i < |r| && CriticEmail(r[i]) == e;
        assert EmailsOf(r)[i] == e;
      }
    }
    assert listed == all;
    forall e | HasMatch(cs, CommentEmail, e) ensures HasMatch(r, CriticEmail, e) {
      assert e in listed;
      var i :| 0 <= i < |r| && EmailsOf(r)[i] == e;
      assert CriticEmail(r[i]) == e;
    }
  }
}
