/** Entities, request/response shapes and the three tables the reply service
    works on. The tables are what the Post, Reply and Member repositories
    hold; the JWT utility is reduced to what the service reads from it. */
module Entities {

  datatype Option<+T> = None | Some(value: T)

  /** A member's role; only ADMIN bypasses the ownership check. */
  datatype Role = User | Admin

  datatype Member = Member(username: string, role: Role)

  /** A board post (FreeBoard). Replies refer to it by its id. */
  datatype Post = Post(id: int, username: string, contents: string)

  /** A reply: its id, its text, its author and the id of the post it belongs to. */
  datatype Reply = Reply(id: int, contents: string, username: string, postId: int)

  /** The request body of create and edit. */
  datatype ReplyRequest = ReplyRequest(contents: string)

  /** What the service learns from the JWT utility about a token that was
      found in the request: whether it validates, and the subject of its claims. */
  datatype Token = Token(valid: bool, subject: string)

  /** The `(message, status)` pair every non-throwing path returns. */
  datatype MsgDto = MsgDto(msg: string, httpStatus: int)

  /** A call either returns a message DTO or throws an IllegalArgumentException
      carrying a message: the repository returns an empty Optional and the
      service's own orElseThrow turns it into that exception. */
  datatype Outcome = Returned(dto: MsgDto) | Thrown(message: string)

  /** HttpStatus.BAD_REQUEST and HttpStatus.OK: every refusal below carries
      400, every success 200. */
  const BAD_REQUEST: int := 400
  const OK: int := 200

  const InvalidToken: MsgDto := MsgDto("토큰이 유효하지 않습니다.", BAD_REQUEST)
  const Created: MsgDto := MsgDto("댓글을 등록하였습니다.", OK)
  const Edited: MsgDto := MsgDto("수정하였습니다.", OK)
  const EditForbidden: MsgDto := MsgDto("본인이 작성한 글만 수정할 수 있습니다.", BAD_REQUEST)
  const Deleted: MsgDto := MsgDto("삭제하였습니다.", OK)
  const DeleteForbidden: MsgDto := MsgDto("본인이 작성한 댓글만 삭제할 수 있습니다.", BAD_REQUEST)

  const PostNotFound: string := "해당 게시글이 존재하지 않습니다."
  const ReplyNotFound: string := "해당 댓글이 존재하지 않습니다."

  /** The token is present and validates: the only case in which the
      service goes on to read its claims. */
  predicate Authenticated(token: Option<Token>) {
    token.Some? && token.value.valid
  }

  /** The database the service sees: posts by id, replies by id, members by
      username, and the next id the reply table's identity generator hands out. */
  datatype Store = Store(
    posts: map<int, Post>,
    replies: map<int, Reply>,
    members: map<string, Member>,
    nextId: int)
  {
    /** Well-formed tables: each row is stored under its own key, reply ids
        lie below the generator, and every reply belongs to an existing post. */
    predicate Valid() {
      && (forall k :: k in posts ==> posts[k].id == k)
      && (forall k :: k in replies ==> replies[k].id == k && k < nextId && replies[k].postId in posts)
      && (forall u :: u in members ==> members[u].username == u)
    }
  }

  /** For edit and delete, an authenticated token names a stored member
      (findByUsername is never null on these paths). */
  predicate KnownActor(s: Store, token: Option<Token>) {
    Authenticated(token) ==> token.value.subject in s.members
  }
}
