/** Sequences of reply requests served one after another against the same
    store, and what holds across all of them: the posts and members tables
    are never written, requests without a usable token change nothing, a
    plain member never alters a reply someone else wrote, and every reply's
    author is either as it was or the subject of the token that created it. */
module Sessions {
  import opened Entities
  import opened ReplyRules

  /** One call into the service. */
  datatype Request =
    | CreateReq(postId: int, body: ReplyRequest, token: Option<Token>)
    | EditReq(id: int, body: ReplyRequest, token: Option<Token>)
    | DeleteReq(id: int, token: Option<Token>)

  /** The store after a run of requests and the outcome of each, in order. */
  datatype Trace = Trace(store: Store, outcomes: seq<Outcome>)

  /** Edit and delete dereference the member named by an authenticated
      token; create never uses it, so any valid token may create. */
  predicate NeedsActor(s: Store, r: Request) {
    !r.CreateReq? ==> KnownActor(s, r.token)
  }

  predicate ActorsKnown(s: Store, reqs: seq<Request>) {
    forall i :: 0 <= i < |reqs| ==> NeedsActor(s, reqs[i])
  }

  function Apply(s: Store, r: Request): (st: Step)
    requires s.Valid() && NeedsActor(s, r)
    ensures st.store.Valid()
    ensures st.store.posts == s.posts && st.store.members == s.members
    ensures st.store.nextId >= s.nextId
    ensures forall k :: k in st.store.replies ==> k in s.replies || k >= s.nextId
  {
    match r
    case CreateReq(postId, body, token) => Create(s, postId, body, token)
    case EditReq(id, body, token) => Edit(s, id, body, token)
    case DeleteReq(id, token) => Delete(s, id, token)
  }

  /** Serve the requests in order. Neither the posts nor the members table is
      ever written, and the reply id generator never goes back. */
  function Run(s: Store, reqs: seq<Request>): (t: Trace)
    requires s.Valid() && ActorsKnown(s, reqs)
    ensures t.store.Valid() && |t.outcomes| == |reqs|
    ensures t.store.posts == s.posts && t.store.members == s.members
    ensures t.store.nextId >= s.nextId
    ensures forall k :: k in t.store.replies ==> k in s.replies || k >= s.nextId
    decreases |reqs|
  {
    if reqs == [] then Trace(s, [])
    else
      var st := Apply(s, reqs[0]);
      assert ActorsKnown(st.store, reqs[1..]) by {
        forall i | 0 <= i < |reqs[1..]| ensures NeedsActor(st.store, reqs[1..][i]) {
          assert reqs[1..][i] == reqs[i + 1];
        }
      }
      var rest := Run(st.store, reqs[1..]);
      Trace(rest.store, [st.outcome] + rest.outcomes)
  }

  /** Requests none of which carries a valid token leave the store exactly
      as it was, and each is answered with the invalid-token response. */
  lemma {:induction false} UnauthenticatedRunChangesNothing(s: Store, reqs: seq<Request>)
    requires s.Valid()
    requires forall i :: 0 <= i < |reqs| ==> !Authenticated(reqs[i].token)
    ensures ActorsKnown(s, reqs)
    ensures Run(s, reqs).store == s
    ensures forall i :: 0 <= i < |reqs| ==> Run(s, reqs).outcomes[i] == Returned(InvalidToken)
    decreases |reqs|
  {
    if reqs != [] {
      assert Apply(s, reqs[0]) == Step(Returned(InvalidToken), s);
      UnauthenticatedRunChangesNothing(s, reqs[1..]);
      var rest := Run(s, reqs[1..]);
      forall i | 0 <= i < |reqs| ensures Run(s, reqs).outcomes[i] == Returned(InvalidToken) {
        if i > 0 {
          assert Run(s, reqs).outcomes[i] == rest.outcomes[i - 1];
        }
      }
    }
  }

  /** The token of a request is unusable, or it speaks for member u. */
  predicate ActsAs(r: Request, u: string) {
    Authenticated(r.token) ==> r.token.value.subject == u
  }

  /** However many requests a plain (non-ADMIN) member u sends, every reply
      that someone else wrote is still there, unchanged. */
  lemma {:induction false} PlainMemberCannotAlterOthers(s: Store, u: string, reqs: seq<Request>)
    requires s.Valid() && u in s.members && s.members[u].role == User
    requires forall i :: 0 <= i < |reqs| ==> ActsAs(reqs[i], u)
    ensures ActorsKnown(s, reqs)
    ensures forall k :: k in s.replies && s.replies[k].username != u ==>
              k in Run(s, reqs).store.replies && Run(s, reqs).store.replies[k] == s.replies[k]
    decreases |reqs|
  {
    if reqs != [] {
      var st := Apply(s, reqs[0]);
      assert ActsAs(reqs[0], u);
      assert forall k :: k in s.replies && s.replies[k].username != u ==>
               k in st.store.replies && st.store.replies[k] == s.replies[k];
      assert forall i :: 0 <= i < |reqs[1..]| ==> ActsAs(reqs[1..][i], u) by {
        forall i | 0 <= i < |reqs[1..]| ensures ActsAs(reqs[1..][i], u) {
          assert reqs[1..][i] == reqs[i + 1];
        }
      }
      PlainMemberCannotAlterOthers(st.store, u, reqs[1..]);
    }
  }

  /** Request i of the run is an authenticated create by subject a, and it is
      the request that put key k into the reply table: k is absent before it
      and present right after it. */
  predicate CreatedAt(s: Store, reqs: seq<Request>, i: int, k: int, a: string)
    requires s.Valid() && ActorsKnown(s, reqs)
  {
    && 0 <= i < |reqs|
    && reqs[i].CreateReq? && Authenticated(reqs[i].token) && reqs[i].token.value.subject == a
    && k !in Run(s, reqs[..i]).store.replies
    && k in Run(s, reqs[..i + 1]).store.replies
  }

  /** Running the first j + 1 requests is running the first one, then the
      next j. */
  lemma RunPrefixShift(s: Store, reqs: seq<Request>, j: int)
    requires s.Valid() && ActorsKnown(s, reqs) && 0 <= j < |reqs|
    ensures ActorsKnown(Apply(s, reqs[0]).store, reqs[1..][..j])
    ensures Run(s, reqs[..j + 1]).store == Run(Apply(s, reqs[0]).store, reqs[1..][..j]).store
  {
    var st := Apply(s, reqs[0]);
    var p := reqs[..j + 1];
    assert p[0] == reqs[0];
    assert p[1..] == reqs[1..][..j];
    assert ActorsKnown(st.store, reqs[1..][..j]) by {
      forall i | 0 <= i < j ensures NeedsActor(st.store, reqs[1..][..j][i]) {
        assert reqs[1..][..j][i] == reqs[i + 1];
      }
    }
  }

  lemma TailKnown(s: Store, reqs: seq<Request>)
    requires s.Valid() && ActorsKnown(s, reqs) && reqs != []
    ensures ActorsKnown(Apply(s, reqs[0]).store, reqs[1..])
  {
    var st := Apply(s, reqs[0]);
    forall i | 0 <= i < |reqs[1..]| ensures NeedsActor(st.store, reqs[1..][i]) {
      assert reqs[1..][i] == reqs[i + 1];
    }
  }

  /** A key that the first request adds was created by that request. */
  lemma HeadCreatedAt(s: Store, reqs: seq<Request>, k: int)
    requires s.Valid() && ActorsKnown(s, reqs) && reqs != []
    requires k !in s.replies && k in Apply(s, reqs[0]).store.replies
    ensures CreatedAt(s, reqs, 0, k, Apply(s, reqs[0]).store.replies[k].username)
  {
    assert reqs[..0] == [];
    RunPrefixShift(s, reqs, 0);
    assert reqs[1..][..0] == [];
  }

  /** A key created by request i of the tail was created by request i + 1
      of the whole run. */
  lemma ShiftCreatedAt(s: Store, reqs: seq<Request>, i: int, k: int, a: string)
    requires s.Valid() && ActorsKnown(s, reqs) && reqs != []
    requires ActorsKnown(Apply(s, reqs[0]).store, reqs[1..])
    requires CreatedAt(Apply(s, reqs[0]).store, reqs[1..], i, k, a)
    ensures CreatedAt(s, reqs, i + 1, k, a)
  {
    RunPrefixShift(s, reqs, i);
    RunPrefixShift(s, reqs, i + 1);
    assert reqs[i + 1] == reqs[1..][i];
  }

  /** A reply's author is the subject of the token that created it: after any
      run, a reply that was already stored keeps its author (edits never
      change it), and a reply that was not was put into the table by an
      authenticated create in the run whose subject is its author. */
  lemma {:induction false} AuthorIsCreatorSubject(s: Store, reqs: seq<Request>)
    requires s.Valid() && ActorsKnown(s, reqs)
    ensures forall k :: k in Run(s, reqs).store.replies ==>
              var a := Run(s, reqs).store.replies[k].username;
              && (k in s.replies ==> s.replies[k].username == a)
              && (k !in s.replies ==> exists i :: CreatedAt(s, reqs, i, k, a))
    decreases |reqs|
  {
    if reqs != [] {
      var st := Apply(s, reqs[0]);
      TailKnown(s, reqs);
      AuthorIsCreatorSubject(st.store, reqs[1..]);
      var t := Run(s, reqs);
      assert t.store == Run(st.store, reqs[1..]).store;
      forall k | k in t.store.replies
        ensures var a := t.store.replies[k].username;
                && (k in s.replies ==> s.replies[k].username == a)
                && (k !in s.replies ==> exists i :: CreatedAt(s, reqs, i, k, a))
      {
        var a := t.store.replies[k].username;
        if k in s.replies {
          // k lies below the generator, so no later create can have re-added it
          assert k < s.nextId <= st.store.nextId;
          assert k in st.store.replies;
        } else if k in st.store.replies {
          HeadCreatedAt(s, reqs, k);
        } else {
          var i :| CreatedAt(st.store, reqs[1..], i, k, a);
          ShiftCreatedAt(s, reqs, i, k, a);
        }
      }
    }
  }

  /** A create whose valid token names no stored member still saves the
      reply: createReply never uses the member it looks up. */
  lemma NonMemberMayCreate()
    ensures var s := Store(map[1 := Post(1, "root", "hello")], map[], map[], 1);
      var reqs := [CreateReq(1, ReplyRequest("hi"), Some(Token(true, "ghost")))];
      s.Valid() && ActorsKnown(s, reqs) && Run(s, reqs).outcomes == [Returned(Created)]
      && Run(s, reqs).store.replies == map[1 := Reply(1, "hi", "ghost", 1)]
  {
  }
}
