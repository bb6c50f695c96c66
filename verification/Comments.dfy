/** The comment data-access object: the `comments` collection, the ownership check that
    gates updates and deletions, and the commenter report. */
module Comments {
  import opened Driver
  import opened Models
  import opened CommenterReport

  /** `combine(set("text", text), set("date", now))`: only the body and the timestamp change. */
  function Edited(c: Comment, text: string, now: int): (r: Comment)
    ensures r.text == text && r.date == now
    ensures r.id == c.id && r.movieId == c.movieId && r.name == c.name && r.email == c.email
  {
    c.(text := text, date := now)
  }

  /** The ownership check of updateComment and deleteComment: the comment exists, and the
      caller's email is not null and equals the stored author email exactly. */
  predicate OwnedBy(cs: seq<Comment>, id: string, email: Option<string>)
    ensures OwnedBy(cs, id, email) ==>
      email.Some? && exists c :: c in cs && c.id == id && c.email == email.value
    ensures email.None? || !HasMatch(cs, CommentId, id) ==> !OwnedBy(cs, id, email)
  {
    match FindFirst(cs, CommentId, id)
    case None => false
    case Some(c) => email == Some(c.email)
  }

  /** Owning a comment means: it is stored under `id`, and `email` is its author's. */
  lemma OwnedByMeans(cs: seq<Comment>, id: string, email: Option<string>)
    requires UniqueKeys(cs, CommentId)
    ensures OwnedBy(cs, id, email) <==> exists c :: c in cs && c.id == id && email == Some(c.email)
  {
    if exists c :: c in cs && c.id == id && email == Some(c.email) {
      var c :| c in cs && c.id == id && email == Some(c.email);
      FindFirstUnique(cs, CommentId, c);
    }
  }

  class CommentDao {
    /** Which strings `new ObjectId(s)` accepts; the hex parsing itself is not modelled. */
    const validId: string -> bool
    var comments: seq<Comment>

    /** `_id` is unique in every MongoDB collection. */
    predicate Valid()
      reads this
    {
      UniqueKeys(comments, CommentId)
    }

    constructor (validId: string -> bool, comments: seq<Comment>)
      requires UniqueKeys(comments, CommentId)
      ensures Valid() && this.validId == validId && this.comments == comments
    {
      this.validId := validId;
      this.comments := comments;
    }

    /** getComment: a malformed id makes `new ObjectId` throw, uncaught; otherwise the first
        comment with that `_id`, or none. */
    method GetComment(id: string) returns (r: Outcome<Option<Comment>>)
      ensures !validId(id) ==> r == Thrown(IllegalArgumentException)
      ensures validId(id) ==> r == Ok(FindFirst(comments, CommentId, id))
      ensures validId(id) ==> (r.value.None? <==> !HasMatch(comments, CommentId, id))
      ensures validId(id) && Valid() ==> forall c :: c in comments && c.id == id ==> r == Ok(Some(c))
    {
      if !validId(id) {
        return Thrown(IllegalArgumentException);
      }
      r := Ok(FindFirst(comments, CommentId, id));
      if Valid() {
        forall c | c in comments && c.id == id ensures r == Ok(Some(c)) {
          FindFirstUnique(comments, CommentId, c);
        }
      }
    }

    /** addComment: null gives null. Otherwise call 0 inserts, failing on a duplicate `_id`;
        then the id is parsed and call 1 re-reads the comment. Every exception on the way
        becomes IncorrectDaoOperation; one raised after the insert leaves the comment stored. */
    method AddComment(comment: Option<Comment>, fault: Fault) returns (r: Outcome<Option<Comment>>)
      requires Valid()
      modifies this
      ensures Valid()
      ensures comment.None? ==> r == Ok(None) && comments == old(comments)
      ensures comment.Some? && (fault.Fails(0) || HasMatch(old(comments), CommentId, comment.value.id)) ==>
        r == Thrown(IncorrectDaoOperation) && comments == old(comments)
      ensures comment.Some? && !fault.Fails(0) && !HasMatch(old(comments), CommentId, comment.value.id) ==>
        && comments == old(comments) + [comment.value]
        && r == if validId(comment.value.id) && !fault.Fails(1) then Ok(Some(comment.value))
                else Thrown(IncorrectDaoOperation)
    {
      if comment.None? {
        return Ok(None);
      }
      var c := comment.value;
      if fault.Fails(0) || FindFirst(comments, CommentId, c.id).Some? {
        return Thrown(IncorrectDaoOperation);
      }
      UniqueKeysAppend(comments, c, CommentId);
      FindFirstAppendFresh(comments, c, CommentId);
      comments := comments + [c];
      if !validId(c.id) || fault.Fails(1) {
        return Thrown(IncorrectDaoOperation);
      }
      var stored := FindFirst(comments, CommentId, c.id);
      return Ok(stored);
    }

    /** updateComment: a malformed id or a failure of the lookup (call 0) or of the update
        (call 1) becomes IncorrectDaoOperation. A failed ownership check reports false and
        changes nothing; a passed one edits that comment and reports true. */
    method UpdateComment(id: string, text: string, email: Option<string>, now: int, fault: Fault)
      returns (r: Outcome<bool>)
      requires Valid()
      modifies this
      ensures Valid()
      ensures !validId(id) || fault.Fails(0) ==> r == Thrown(IncorrectDaoOperation) && comments == old(comments)
      ensures validId(id) && !fault.Fails(0) && !OwnedBy(old(comments), id, email) ==>
        r == Ok(false) && comments == old(comments)
      ensures validId(id) && !fault.Fails(0) && OwnedBy(old(comments), id, email) ==>
        var i := FirstIndex(old(comments), CommentId, id).value;
        if fault.Fails(1) then r == Thrown(IncorrectDaoOperation) && comments == old(comments)
        else
          && r == Ok(true)
          && i < |old(comments)|
          && comments == old(comments)[i := Edited(old(comments)[i], text, now)]
          && FindFirst(comments, CommentId, id) == Some(Edited(old(comments)[i], text, now))
      ensures |comments| == |old(comments)|
      ensures forall c :: c in old(comments) && c.id != id ==> c in comments
    {
      if !validId(id) || fault.Fails(0) {
        return Thrown(IncorrectDaoOperation);
      }
      var retrieved := FindFirst(comments, CommentId, id);
      if retrieved.Some? && email.Some? && email.value == retrieved.value.email {
        if fault.Fails(1) {
          return Thrown(IncorrectDaoOperation);
        }
        var i := FirstIndex(comments, CommentId, id).value;
        var edited := Edited(comments[i], text, now);
        UpdateFirstMatch(comments, CommentId, id, i, edited);
        forall c | c in comments && c.id != id ensures c in comments[i := edited] {
          var k :| 0 <= k < |comments| && comments[k] == c;
          assert k != i;
          assert comments[i := edited][k] == c;
        }
        comments := comments[i := edited];
        return Ok(true);
      }
      return Ok(false);
    }

    /** deleteComment: like updateComment, except that every exception becomes
        IllegalArgumentException and a passed ownership check deletes the comment (call 1). */
    method DeleteComment(id: string, email: Option<string>, fault: Fault) returns (r: Outcome<bool>)
      requires Valid()
      modifies this
      ensures Valid()
      ensures !validId(id) || fault.Fails(0) ==> r == Thrown(IllegalArgumentException) && comments == old(comments)
      ensures validId(id) && !fault.Fails(0) && !OwnedBy(old(comments), id, email) ==>
        r == Ok(false) && comments == old(comments)
      ensures validId(id) && !fault.Fails(0) && OwnedBy(old(comments), id, email) ==>
        if fault.Fails(1) then r == Thrown(IllegalArgumentException) && comments == old(comments)
        else
          && r == Ok(true)
          && comments == DeleteOne(old(comments), CommentId, id)
          && |comments| == |old(comments)| - 1
          && FindFirst(comments, CommentId, id) == None
      ensures forall c :: c in old(comments) && c.id != id ==> c in comments
    {
      if !validId(id) || fault.Fails(0) {
        return Thrown(IllegalArgumentException);
      }
      var retrieved := FindFirst(comments, CommentId, id);
      if retrieved.Some? && email.Some? && email.value == retrieved.value.email {
        if fault.Fails(1) {
          return Thrown(IllegalArgumentException);
        }
        UniqueKeysDeleteOne(comments, CommentId, id);
        comments := DeleteOne(comments, CommentId, id);
        return Ok(true);
      }
      return Ok(false);
    }

    /** mostActiveCommenters: the rows of the report pipeline, copied from its cursor into
        a list one by one. Which of several authors with equal counts come first is the
        database's choice; the contract holds for every choice. */
    method MostActiveCommenters() returns (mostActive: seq<Critic>)
      ensures IsLeaderboard(comments, mostActive)
      ensures |Authors(comments)| <= TopN ==>
        forall e :: HasMatch(comments, CommentEmail, e) ==> HasMatch(mostActive, CriticEmail, e)
    {
      var cursor := Leaderboard(comments);
      mostActive := [];
      var i := 0;
      while i < |cursor|
        invariant 0 <= i <= |cursor|
        invariant mostActive == cursor[..i]
      {
        mostActive := mostActive + [cursor[i]];
        i := i + 1;
      }
      assert cursor[..i] == cursor;
      if |Authors(comments)| <= TopN {
        FewAuthorsAllListed(comments, mostActive);
      }
    }
  }

  /** A comment added, edited by a stranger, edited by its author, deleted by a stranger and
      deleted by its author, as a caller sees it. */
  method CommentLifecycle(validId: string -> bool, c: Comment, stranger: string, text: string, now: int)
    requires validId(c.id) && stranger != c.email
  {
    var dao := new CommentDao(validId, []);
    var added := dao.AddComment(Some(c), Healthy);
    assert added == Ok(Some(c));
    var refused := dao.UpdateComment(c.id, text, Some(stranger), now, Healthy);
    assert refused == Ok(false) && dao.comments == [c];
    var edited := dao.UpdateComment(c.id, text, Some(c.email), now, Healthy);
    assert edited == Ok(true);
    var got := dao.GetComment(c.id);
    assert got == Ok(Some(Edited(c, text, now)));
    var kept := dao.DeleteComment(c.id, Some(stranger), Healthy);
    assert kept == Ok(false);
    var deleted := dao.DeleteComment(c.id, Some(c.email), Healthy);
    assert deleted == Ok(true);
    var gone := dao.GetComment(c.id);
    assert gone == Ok(None);
  }
}
