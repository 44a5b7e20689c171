# Reply service of a bulletin-board backend, modelled in Dafny

This project models the reply service of a small Spring bulletin board:
creating, editing and deleting replies under posts, guarded by a JWT and a
two-tier role model (USER / ADMIN). Every operation first checks that a
token is present and that it validates, then looks up the member its subject
names. Create then only needs the target post to exist; it makes no role or
authorship check. Edit and delete need the target reply to exist (edit also
needs a post, see below), and then allow an ADMIN, and otherwise only the
reply's author. Only then does an operation write the reply table and return
a `(message, status)` pair. A missing post or reply is thrown as a
fault carrying a message.

Files:

- `entities.dfy` (module `Entities`): members, posts, replies, the request
  body, the token as seen by the service (`Token(valid, subject)`, wrapped in
  `Option`: `None` is a request without a token), the response DTO, the
  outcome of a call (`Returned(dto)` or `Thrown(message)`), the exact
  messages and status codes, and `Store`: the post, reply and member tables
  plus the reply table's id generator, with its well-formedness predicate.
- `reply_rules.dfy` (module `ReplyRules`): each operation as a function from
  the store before the call to the outcome and the store after it. Their
  contracts give the full decision table: which outcome happens exactly when,
  and what the store is afterwards. `MayModify` is the ownership policy (an
  ADMIN, or the reply's author).
- `reply_service.dfy` (module `Service`): the service as a class whose
  fields are the three tables and the id generator; its methods follow the
  source's early-return structure and are proved to produce exactly the
  steps of `ReplyRules`.
- `reply_properties.dfy` (module `ReplyProperties`): properties of single
  calls and pairs of calls.
- `sessions.dfy` (module `Sessions`): runs of many requests and what holds
  across them, proved by induction over the run.

The source's edit operation looks the post up by the reply's id rather than
by the post the reply belongs to (`ReplyService.java:89-91`). The model
reproduces this as written. An edit fails with "해당 게시글이 존재하지
않습니다." when no post has the reply's id, and a successful edit moves the
reply to that post. `ReplyProperties.EditLooksUpPostByReplyId` and
`ReplyProperties.EditQuirkExample` state it. The lookup is most likely a
copy of the create path's lookup and not intended, but the model follows the
code as written.

`createReply` looks the member up but never uses it. So a valid token whose
subject is not a stored member still creates a reply. Edit and delete
dereference the member, so the model requires it to exist there; in a run
of requests only edit and delete carry that requirement
(`Sessions.NonMemberMayCreate` shows a non-member's create succeeding).

## Model

| member | source | states |
|---|---|---|
| ReplyRules.Updated | src/main/java/hanghae11/springexample/reply/service/ReplyService.java:95 | `reply.update`: contents come from the request and the reply points at the given post; its id and author are kept |
| ReplyRules.Create | src/main/java/hanghae11/springexample/reply/service/ReplyService.java:29-65 | invalid-token 400 exactly when the token is missing or invalid; post-not-found fault exactly when authenticated and the post is absent; "댓글을 등록하였습니다." 200 exactly otherwise, with no role or ownership check; only success changes the store, by adding a reply under a fresh id with the request contents, the token subject as author and the addressed post; the store stays well-formed |
| ReplyRules.Edit | src/main/java/hanghae11/springexample/reply/service/ReplyService.java:67-111 | invalid-token exactly when unauthenticated; reply-not-found exactly when the reply is absent, whatever the role; post-not-found exactly when the reply exists but no post has the reply's id; forbidden 400 exactly when neither ADMIN nor author; "수정하였습니다." exactly when ADMIN or author; only success changes the store, and only the target reply |
| ReplyRules.Delete | src/main/java/hanghae11/springexample/reply/service/ReplyService.java:114-147 | invalid-token exactly when unauthenticated; reply-not-found exactly when the reply is absent, whatever the role; forbidden 400 exactly when neither ADMIN nor author; "삭제하였습니다." exactly when ADMIN or author; only success changes the store, by removing that reply id |
| Service.ReplyService.constructor | src/main/java/hanghae11/springexample/reply/service/ReplyService.java:23-27 | the service starts on the given well-formed tables |
| Service.ReplyService.SaveNew | src/main/java/hanghae11/springexample/reply/service/ReplyService.java:57 | `replyRepository.save` stores the new reply under a fresh id from the generator and touches nothing else |
| Service.ReplyService.CreateReply | src/main/java/hanghae11/springexample/reply/service/ReplyService.java:29-65 | the method's outcome and new tables are exactly those of `ReplyRules.Create`, and the tables stay well-formed |
| Service.ReplyService.EditReply | src/main/java/hanghae11/springexample/reply/service/ReplyService.java:67-111 | the method's outcome and new tables are exactly those of `ReplyRules.Edit`, and the tables stay well-formed |
| Service.ReplyService.DeleteReply | src/main/java/hanghae11/springexample/reply/service/ReplyService.java:114-147 | the method's outcome and new tables are exactly those of `ReplyRules.Delete`, and the tables stay well-formed |
| ReplyProperties.CreateTokenGuard | src/main/java/hanghae11/springexample/reply/service/ReplyService.java:34-61 | create with a missing token and create with an invalid token give the same response ("토큰이 유효하지 않습니다.", 400) and leave every table as it was |
| ReplyProperties.EditTokenGuard | src/main/java/hanghae11/springexample/reply/service/ReplyService.java:73-78 | edit with a missing or an invalid token gives that same response and changes nothing |
| ReplyProperties.DeleteTokenGuard | src/main/java/hanghae11/springexample/reply/service/ReplyService.java:119-124 | delete with a missing or an invalid token gives that same response and changes nothing |
| ReplyProperties.CreateAddsOneReply | src/main/java/hanghae11/springexample/reply/service/ReplyService.java:45-58 | an authenticated create on an existing post adds exactly one reply under a key not used before, carrying the request contents, the subject as author and that post; every earlier reply, post and member is unchanged |
| ReplyProperties.AdminEditsAny | src/main/java/hanghae11/springexample/reply/service/ReplyService.java:94-97 | an ADMIN edits any existing reply, whoever the author, when a post has the reply's id, and gets ("수정하였습니다.", 200) |
| ReplyProperties.AdminDeletesAny | src/main/java/hanghae11/springexample/reply/service/ReplyService.java:133-136 | an ADMIN deletes any existing reply, whoever the author, and gets ("삭제하였습니다.", 200) |
| ReplyProperties.EditByStrangerRefused | src/main/java/hanghae11/springexample/reply/service/ReplyService.java:100-102 | a USER who is not the author gets ("본인이 작성한 글만 수정할 수 있습니다.", 400) and the store is unchanged |
| ReplyProperties.DeleteByStrangerRefused | src/main/java/hanghae11/springexample/reply/service/ReplyService.java:138-140 | a USER who is not the author gets ("본인이 작성한 댓글만 삭제할 수 있습니다.", 400) and the reply is not deleted |
| ReplyProperties.AuthorMayEdit | src/main/java/hanghae11/springexample/reply/service/ReplyService.java:100-105 | the author may edit the reply when a post has the reply's id |
| ReplyProperties.AuthorMayDelete | src/main/java/hanghae11/springexample/reply/service/ReplyService.java:138-143 | the author may delete the reply |
| ReplyProperties.EditTouchesOnlyTarget | src/main/java/hanghae11/springexample/reply/service/ReplyService.java:104-105 | a successful edit keeps the posts, members, generator, reply keys and every other reply; the target keeps its id and author and takes the new contents |
| ReplyProperties.DeleteTouchesOnlyTarget | src/main/java/hanghae11/springexample/reply/service/ReplyService.java:142-143 | a successful delete removes exactly the target key; every other reply, post and member is unchanged |
| ReplyProperties.DeleteTwiceThrows | src/main/java/hanghae11/springexample/reply/service/ReplyService.java:128-130 | deleting a reply that was just deleted throws "해당 댓글이 존재하지 않습니다." and changes nothing, for any authenticated caller |
| ReplyProperties.EditLooksUpPostByReplyId | src/main/java/hanghae11/springexample/reply/service/ReplyService.java:89-91 | edit throws post-not-found when no post has the reply's id, even though the reply's own post exists and even for an ADMIN; a successful edit re-points the reply to the post whose id is the reply's id |
| ReplyProperties.EditQuirkExample | src/main/java/hanghae11/springexample/reply/service/ReplyService.java:89-91 | a concrete well-formed store (reply 7 on post 1, no post 7) where an ADMIN's edit throws post-not-found |
| Sessions.Apply | src/main/java/hanghae11/springexample/reply/service/ReplyService.java:29-147 | any one call (a create by any valid token, an edit or delete by a stored member) keeps the store well-formed, never writes the posts or members table, never moves the id generator back, and only adds reply keys at or above it |
| Sessions.Run | src/main/java/hanghae11/springexample/reply/service/ReplyService.java:29-147 | after any run of calls (creates by any valid token included) the store is well-formed, there is one outcome per call, the posts and members tables are untouched, and every new reply key lies at or above the generator's starting value |
| Sessions.NonMemberMayCreate | src/main/java/hanghae11/springexample/reply/service/ReplyService.java:42-58 | a run holding one create whose valid token names no stored member returns "댓글을 등록하였습니다." and saves the reply with that subject as author |
| Sessions.UnauthenticatedRunChangesNothing | src/main/java/hanghae11/springexample/reply/service/ReplyService.java:29-147 | a run of calls none of which carries a valid token leaves the store exactly as it was and answers each with the invalid-token response |
| Sessions.PlainMemberCannotAlterOthers | src/main/java/hanghae11/springexample/reply/service/ReplyService.java:94-143 | however many calls a USER makes, every reply written by someone else is still present and unchanged |
| Sessions.AuthorIsCreatorSubject | src/main/java/hanghae11/springexample/reply/service/ReplyService.java:50-54 | after any run, a reply that was stored before keeps its author (edits never change it), and a reply that was not was put into the table by one particular request of the run (absent before it, present after it), an authenticated create whose subject is the reply's author; creates by non-members are included |

## Left out

- The JWT utility (`resolveToken`, `validateToken`, `getUserInfoFromToken`) and the HTTP request are not part of this model. The token is an input: absent, or present with a validity flag and a subject.
- The null-member path of edit and delete is left out. `findByUsername` may return null. The source then still throws "해당 댓글이 존재하지 않습니다." when the reply is missing (lines 84-86, 128-130) and, for edit, "해당 게시글이 존재하지 않습니다." when no post has the reply's id (lines 89-91); only past those lookups does it fail with a NullPointerException on `member.getRole()` (lines 94, 133). Edit and delete instead require an authenticated subject to be a stored member, so the model says nothing about any of these outcomes for a subject that is not a member, the not-found faults included. Create has no such requirement.
- Spring and JPA plumbing (`@Service`, constructor injection, `@Transactional`, the repository implementations) is not modelled. The repositories are maps. A saved reply's id comes from a counter that stays above every stored key.
- The `Reply` and `FreeBoard` entities are not part of this model. A reply refers to its post by the post's id. `Reply.update` is taken to replace the contents and the post reference and to keep the id and author; nothing more is claimed about it.
- The in-place update of a managed entity (`reply.update` on lines 95 and 104, flushed by the transaction) is modelled as replacing the reply's entry in the reply map.
- The DTO class `ReplyRequestMsgDto` is not part of this model. The response is modelled as a `(message, status)` pair, the shape of `SignupRequestMsgDto`.
- Java's `Long` ids are modelled as unbounded integers. A null id is not modelled.
- Concurrent edits or deletes of one row are left to the persistence layer and are not modelled.
