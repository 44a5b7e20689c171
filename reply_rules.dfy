/** The three reply operations as functions from the store before a call to
    the outcome and the store after it. Each follows the guard order of the
    service: token present, token valid, member lookup, entity lookup, ADMIN
    override, ownership. The class in module Service is proved to compute
    exactly these steps. */
module ReplyRules {
  import opened Entities

  /** The outcome of one call and the store it leaves behind. */
  datatype Step = Step(outcome: Outcome, store: Store)

  /** The authorization policy for changing an existing reply: an ADMIN may
      change any reply, anyone else only the replies they wrote. */
  predicate MayModify(s: Store, subject: string, id: int)
    requires subject in s.members && id in s.replies
  {
    s.members[subject].role == Admin || s.replies[id].username == subject
  }

  /** Reply.update: the contents come from the request and the reply now
      belongs to the given post; id and author stay. */
  function Updated(r: Reply, req: ReplyRequest, postId: int): (u: Reply)
    ensures u.id == r.id && u.username == r.username
    ensures u.contents == req.contents && u.postId == postId
  {
    r.(contents := req.contents, postId := postId)
  }

  /** createReply. There is no role or ownership check: any authenticated
      subject may reply to any existing post. The member looked up by the
      source is never used on this path, so it need not exist. */
  function Create(s: Store, postId: int, req: ReplyRequest, token: Option<Token>): (st: Step)
    requires s.Valid()
    ensures st.store.Valid()
    ensures st.outcome == Returned(InvalidToken) <==> !Authenticated(token)
    ensures st.outcome == Thrown(PostNotFound) <==> Authenticated(token) && postId !in s.posts
    ensures st.outcome == Returned(Created) <==> Authenticated(token) && postId in s.posts
    ensures st.outcome != Returned(Created) ==> st.store == s
    ensures st.outcome == Returned(Created) ==>
      && s.nextId !in s.replies
      && st.store == s.(replies := s.replies[s.nextId := Reply(s.nextId, req.contents, token.value.subject, postId)],
                        nextId := s.nextId + 1)
  {
    if token.Some? then
      if token.value.valid then
        var subject := token.value.subject;
        if postId !in s.posts then Step(Thrown(PostNotFound), s)
        else
          var reply := Reply(s.nextId, req.contents, subject, postId);
          Step(Returned(Created), s.(replies := s.replies[s.nextId := reply], nextId := s.nextId + 1))
      else Step(Returned(InvalidToken), s)
    else Step(Returned(InvalidToken), s)
  }

  /** editReply. NOTE: as written, the source looks the board post up by the
      REPLY's id, not by the post the reply belongs to. An edit therefore
      throws "post not found" whenever no post has the reply's id, and a
      successful edit moves the reply to the post whose id equals the reply's
      id. This is reproduced here, not corrected. */
  function Edit(s: Store, id: int, req: ReplyRequest, token: Option<Token>): (st: Step)
    requires s.Valid()
    requires KnownActor(s, token)
    ensures st.store.Valid()
    ensures st.outcome == Returned(InvalidToken) <==> !Authenticated(token)
    ensures st.outcome == Thrown(ReplyNotFound) <==> Authenticated(token) && id !in s.replies
    ensures st.outcome == Thrown(PostNotFound) <==> Authenticated(token) && id in s.replies && id !in s.posts
    ensures st.outcome == Returned(EditForbidden) <==>
      Authenticated(token) && id in s.replies && id in s.posts && !MayModify(s, token.value.subject, id)
    ensures st.outcome == Returned(Edited) <==>
      Authenticated(token) && id in s.replies && id in s.posts && MayModify(s, token.value.subject, id)
    ensures st.outcome != Returned(Edited) ==> st.store == s
    ensures st.outcome == Returned(Edited) ==>
      st.store == s.(replies := s.replies[id := Updated(s.replies[id], req, id)])
  {
    if token.Some? then
      if token.value.valid then
        var member := s.members[token.value.subject];
        if id !in s.replies then Step(Thrown(ReplyNotFound), s)
        else
          var reply := s.replies[id];
          // the post is looked up by the reply id (see above)
          if id !in s.posts then Step(Thrown(PostNotFound), s)
          else if member.role == Admin then
            Step(Returned(Edited), s.(replies := s.replies[id := Updated(reply, req, id)]))
          else if reply.username != member.username then
            Step(Returned(EditForbidden), s)
          else
            Step(Returned(Edited), s.(replies := s.replies[id := Updated(reply, req, id)]))
      else Step(Returned(InvalidToken), s)
    else Step(Returned(InvalidToken), s)
  }

  /** deleteReply. */
  function Delete(s: Store, id: int, token: Option<Token>): (st: Step)
    requires s.Valid()
    requires KnownActor(s, token)
    ensures st.store.Valid()
    ensures st.outcome == Returned(InvalidToken) <==> !Authenticated(token)
    ensures st.outcome == Thrown(ReplyNotFound) <==> Authenticated(token) && id !in s.replies
    ensures st.outcome == Returned(DeleteForbidden) <==>
      Authenticated(token) && id in s.replies && !MayModify(s, token.value.subject, id)
    ensures st.outcome == Returned(Deleted) <==>
      Authenticated(token) && id in s.replies && MayModify(s, token.value.subject, id)
    ensures st.outcome != Returned(Deleted) ==> st.store == s
    ensures st.outcome == Returned(Deleted) ==> st.store == s.(replies := s.replies - {id})
  {
    if token.Some? then
      if token.value.valid then
        var member := s.members[token.value.subject];
        if id !in s.replies then Step(Thrown(ReplyNotFound), s)
        else
          var reply := s.replies[id];
          if member.role == Admin then
            Step(Returned(Deleted), s.(replies := s.replies - {id}))
          else if reply.username != member.username then
            Step(Returned(DeleteForbidden), s)
          else
            Step(Returned(Deleted), s.(replies := s.replies - {id}))
      else Step(Returned(InvalidToken), s)
    else Step(Returned(InvalidToken), s)
  }
}
