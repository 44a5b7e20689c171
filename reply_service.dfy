/** The reply service itself: a class over the three repository tables whose
    methods check the guards in the source's order, return early on the first
    failing one, and only then write the reply table. Each method is proved
    to produce exactly the step that module ReplyRules describes. */
module Service {
  import opened Entities
  import ReplyRules

  class ReplyService {
    var posts: map<int, Post>          // FreeBoardRepository
    var replies: map<int, Reply>       // ReplyRepository
    var members: map<string, Member>   // MemberRepository, keyed by username
    var nextId: int                    // next id the reply table hands out on save

    function State(): Store
      reads this
    {
      Store(posts, replies, members, nextId)
    }

    predicate Valid()
      reads this
    {
      State().Valid()
    }

    constructor (s: Store)
      requires s.Valid()
      ensures Valid() && State() == s
    {
      posts, replies, members, nextId := s.posts, s.replies, s.members, s.nextId;
    }

    /** replyRepository.save of a new reply: the table assigns the next id. */
    method SaveNew(reply: Reply) returns (id: int)
      requires Valid() && reply.postId in posts
      modifies this
      ensures Valid()
      ensures id == old(nextId) && id !in old(replies)
      ensures replies == old(replies)[id := reply.(id := id)] && nextId == old(nextId) + 1
      ensures posts == old(posts) && members == old(members)
    {
      id := nextId;
      replies := replies[id := reply.(id := id)];
      nextId := nextId + 1;
    }

    method CreateReply(id: int, req: ReplyRequest, token: Option<Token>) returns (out: Outcome)
      requires Valid()
      modifies this
      ensures Valid()
      ensures ReplyRules.Step(out, State()) == ReplyRules.Create(old(State()), id, req, token)
    {
      if token.Some? {
        var subject: string;
        if token.value.valid {
          subject := token.value.subject;
        } else {
          return Returned(InvalidToken);
        }
        // the member the source looks up here is never used
        if id !in posts {
          return Thrown(PostNotFound);
        }
        var reply := Reply(0, req.contents, subject, id);
        var _ := SaveNew(reply);
        return Returned(Created);
      } else {
        return Returned(InvalidToken);
      }
    }

    /** editReply, including the source's lookup of the post by the reply's
        id (see ReplyRules.Edit). */
    method EditReply(id: int, req: ReplyRequest, token: Option<Token>) returns (out: Outcome)
      requires Valid()
      requires KnownActor(State(), token)
      modifies this
      ensures Valid()
      ensures ReplyRules.Step(out, State()) == ReplyRules.Edit(old(State()), id, req, token)
    {
      if token.Some? {
        var subject: string;
        if token.value.valid {
          subject := token.value.subject;
        } else {
          return Returned(InvalidToken);
        }
        var member := members[subject];
        if id !in replies {
          return Thrown(ReplyNotFound);
        }
        var reply := replies[id];
        // looked up by the reply id, as in the source
        if id !in posts {
          return Thrown(PostNotFound);
        }
        var freeBoard := posts[id];
        if member.role == Admin {
          replies := replies[id := ReplyRules.Updated(reply, req, freeBoard.id)];
          return Returned(Edited);
        }
        if reply.username != member.username {
          return Returned(EditForbidden);
        }
        replies := replies[id := ReplyRules.Updated(reply, req, freeBoard.id)];
        return Returned(Edited);
      } else {
        return Returned(InvalidToken);
      }
    }

    method DeleteReply(id: int, token: Option<Token>) returns (out: Outcome)
      requires Valid()
      requires KnownActor(State(), token)
      modifies this
      ensures Valid()
      ensures ReplyRules.Step(out, State()) == ReplyRules.Delete(old(State()), id, token)
    {
      if token.Some? {
        var subject: string;
        if token.value.valid {
          subject := token.value.subject;
        } else {
          return Returned(InvalidToken);
        }
        var member := members[subject];
        if id !in replies {
          return Thrown(ReplyNotFound);
        }
        var reply := replies[id];
        if member.role == Admin {
          replies := replies - {id};
          return Returned(Deleted);
        }
        if reply.username != member.username {
          return Returned(DeleteForbidden);
        }
        replies := replies - {id};
        return Returned(Deleted);
      } else {
        return Returned(InvalidToken);
      }
    }
  }
}
