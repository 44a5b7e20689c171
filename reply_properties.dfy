/** Properties of single reply operations: who may change which reply, what
    each refused call leaves alone, and which rows a successful call touches. */
module ReplyProperties {
  import opened Entities
  import opened ReplyRules

  /** createReply: a missing token and a token that fails validation are
      indistinguishable to the caller, and neither changes the store. */
  lemma CreateTokenGuard(s: Store, postId: int, req: ReplyRequest, subject: string)
    requires s.Valid()
    ensures Create(s, postId, req, None) == Create(s, postId, req, Some(Token(false, subject)))
              == Step(Returned(InvalidToken), s)
  {
  }

  /** editReply: the same for a missing or invalid token. */
  lemma EditTokenGuard(s: Store, id: int, req: ReplyRequest, subject: string)
    requires s.Valid()
    ensures Edit(s, id, req, None) == Edit(s, id, req, Some(Token(false, subject)))
              == Step(Returned(InvalidToken), s)
  {
  }

  /** deleteReply: the same for a missing or invalid token. */
  lemma DeleteTokenGuard(s: Store, id: int, subject: string)
    requires s.Valid()
    ensures Delete(s, id, None) == Delete(s, id, Some(Token(false, subject)))
              == Step(Returned(InvalidToken), s)
  {
  }

  /** A successful create adds exactly one reply under a fresh id; it carries
      the request's contents, the token's subject as author and the addressed
      post, and every row that was there before is still there unchanged. */
  lemma CreateAddsOneReply(s: Store, postId: int, req: ReplyRequest, token: Option<Token>)
    requires s.Valid() && Authenticated(token) && postId in s.posts
    ensures var st := Create(s, postId, req, token);
      && st.outcome == Returned(Created)
      && (exists k :: k !in s.replies && st.store.replies.Keys == s.replies.Keys + {k}
                      && st.store.replies[k] == Reply(k, req.contents, token.value.subject, postId))
      && |st.store.replies| == |s.replies| + 1
      && (forall k :: k in s.replies ==> k in st.store.replies && st.store.replies[k] == s.replies[k])
      && st.store.posts == s.posts && st.store.members == s.members
  {
  }

  /** An ADMIN edits any existing reply, whoever wrote it, provided a post
      has the reply's id. */
  lemma AdminEditsAny(s: Store, id: int, req: ReplyRequest, token: Option<Token>)
    requires s.Valid() && Authenticated(token) && token.value.subject in s.members
    requires s.members[token.value.subject].role == Admin
    requires id in s.replies && id in s.posts
    ensures Edit(s, id, req, token).outcome == Returned(Edited)
  {
  }

  /** An ADMIN deletes any existing reply, whoever wrote it. */
  lemma AdminDeletesAny(s: Store, id: int, token: Option<Token>)
    requires s.Valid() && Authenticated(token) && token.value.subject in s.members
    requires s.members[token.value.subject].role == Admin
    requires id in s.replies
    ensures Delete(s, id, token).outcome == Returned(Deleted)
  {
  }

  /** A non-ADMIN member who did not write the reply cannot edit it: 400, and
      the store is unchanged. */
  lemma EditByStrangerRefused(s: Store, id: int, req: ReplyRequest, token: Option<Token>)
    requires s.Valid() && Authenticated(token) && token.value.subject in s.members
    requires s.members[token.value.subject].role == User
    requires id in s.replies && id in s.posts && s.replies[id].username != token.value.subject
    ensures Edit(s, id, req, token) == Step(Returned(EditForbidden), s)
  {
  }

  /** A non-ADMIN member who did not write the reply cannot delete it: 400,
      and the reply is still there. */
  lemma DeleteByStrangerRefused(s: Store, id: int, token: Option<Token>)
    requires s.Valid() && Authenticated(token) && token.value.subject in s.members
    requires s.members[token.value.subject].role == User
    requires id in s.replies && s.replies[id].username != token.value.subject
    ensures Delete(s, id, token) == Step(Returned(DeleteForbidden), s)
  {
  }

  /** The author of a reply, whatever their role, may edit it (given a post
      with the reply's id). */
  lemma AuthorMayEdit(s: Store, id: int, req: ReplyRequest, token: Option<Token>)
    requires s.Valid() && Authenticated(token) && token.value.subject in s.members
    requires id in s.replies && id in s.posts && s.replies[id].username == token.value.subject
    ensures Edit(s, id, req, token).outcome == Returned(Edited)
  {
  }

  /** The author of a reply, whatever their role, may delete it. */
  lemma AuthorMayDelete(s: Store, id: int, token: Option<Token>)
    requires s.Valid() && Authenticated(token) && token.value.subject in s.members
    requires id in s.replies && s.replies[id].username == token.value.subject
    ensures Delete(s, id, token).outcome == Returned(Deleted)
  {
  }

  /** A successful edit rewrites only the target reply: its contents and post
      change, its id and author stay, and no other row of any table changes. */
  lemma EditTouchesOnlyTarget(s: Store, id: int, req: ReplyRequest, token: Option<Token>)
    requires s.Valid() && KnownActor(s, token)
    requires Edit(s, id, req, token).outcome == Returned(Edited)
    ensures var t := Edit(s, id, req, token).store;
      && t.posts == s.posts && t.members == s.members && t.nextId == s.nextId
      && t.replies.Keys == s.replies.Keys
      && (forall k :: k in s.replies && k != id ==> t.replies[k] == s.replies[k])
      && t.replies[id].id == id && t.replies[id].username == s.replies[id].username
      && t.replies[id].contents == req.contents
  {
  }

  /** A successful delete removes exactly the target reply and nothing else. */
  lemma DeleteTouchesOnlyTarget(s: Store, id: int, token: Option<Token>)
    requires s.Valid() && KnownActor(s, token)
    requires Delete(s, id, token).outcome == Returned(Deleted)
    ensures var t := Delete(s, id, token).store;
      && t.posts == s.posts && t.members == s.members && t.nextId == s.nextId
      && id in s.replies && t.replies.Keys == s.replies.Keys - {id}
      && (forall k :: k in t.replies ==> t.replies[k] == s.replies[k])
  {
  }

  /** Deleting a reply that has just been deleted throws the not-found fault
      and changes nothing, whoever asks. */
  lemma DeleteTwiceThrows(s: Store, id: int, token: Option<Token>, again: Option<Token>)
    requires s.Valid() && KnownActor(s, token) && KnownActor(s, again) && Authenticated(again)
    requires Delete(s, id, token).outcome == Returned(Deleted)
    ensures var t := Delete(s, id, token).store;
      KnownActor(t, again) && Delete(t, id, again) == Step(Thrown(ReplyNotFound), t)
  {
  }

  /** The edit quirk: the post is looked up by the reply's id. An existing
      reply whose own post exists still cannot be edited, even by an ADMIN,
      when no post carries the reply's id; and a successful edit moves the
      reply to the post whose id is the reply's id. */
  lemma EditLooksUpPostByReplyId(s: Store, id: int, req: ReplyRequest, token: Option<Token>)
    requires s.Valid() && KnownActor(s, token) && Authenticated(token)
    requires id in s.replies
    ensures s.replies[id].postId in s.posts
    ensures id !in s.posts ==> Edit(s, id, req, token) == Step(Thrown(PostNotFound), s)
    ensures Edit(s, id, req, token).outcome == Returned(Edited) ==>
      Edit(s, id, req, token).store.replies[id].postId == id
  {
  }

  /** A concrete case of the quirk: reply 7 on post 1, edited by an ADMIN,
      fails because there is no post 7. */
  lemma EditQuirkExample()
    ensures var admin := Member("root", Admin);
      var s := Store(map[1 := Post(1, "root", "hello")],
                     map[7 := Reply(7, "hi", "root", 1)],
                     map["root" := admin], 8);
      s.Valid() &&
      Edit(s, 7, ReplyRequest("bye"), Some(Token(true, "root"))).outcome == Thrown(PostNotFound)
  {
  }
}
