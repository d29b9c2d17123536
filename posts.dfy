/** The forum's post records and what its handlers compute over the stored
    collection: the list filter of `renderAllPosts`, the category list of
    `populateCategoryDropdown`, and the create, comment and like transitions. */
module Posts {
  import opened Text
  import opened Seqs

  datatype Option<T> = None | Some(value: T)

  /** `{ id, name, role }`; `role` is "user" or "doctor". */
  datatype Author = Author(id: string, name: string, role: string)

  datatype Comment = Comment(id: string, author: Author, text: string, createdAt: int)

  /** One forum post as it is stored; `createdAt` is a timestamp in milliseconds. */
  datatype Post = Post(
    id: string,
    title: string,
    content: string,
    image: Option<string>,
    category: string,
    author: Author,
    likes: nat,
    likedBy: seq<string>,
    comments: seq<Comment>,
    createdAt: int,
    shares: nat)

  /** `CURRENT_USER`, the demo identity every action is taken as. */
  const CurrentUser: Author := Author("me", "You (Demo)", "user")

  /** The author a post gets when the form's author type is "doctor". */
  const DemoDoctor: Author := Author("doctor-demo", "Dr. Demo", "doctor")

  // ---------------------------------------------------------------------------
  // Store invariants

  /** No two posts share an identifier. */
  predicate UniqueIds(posts: seq<Post>) {
    forall i, j :: 0 <= i < j < |posts| ==> posts[i].id != posts[j].id
  }

  /** Every post's like count is the number of distinct users who liked it. */
  predicate LikesConsistent(p: Post) {
    NoDup(p.likedBy) && p.likes == |p.likedBy|
  }

  predicate WellFormed(posts: seq<Post>) {
    UniqueIds(posts) && forall i :: 0 <= i < |posts| ==> LikesConsistent(posts[i])
  }

  /** The sum of `f` over the posts, for counting comments and likes. */
  function Total(posts: seq<Post>, f: Post -> nat): nat {
    if posts == [] then 0 else f(posts[0]) + Total(posts[1..], f)
  }

  function CommentCount(p: Post): nat { |p.comments| }

  function LikeCount(p: Post): nat { p.likes }

  /** Replacing one post changes the total by the difference at that post. */
  lemma {:induction false} TotalUpdate(posts: seq<Post>, i: nat, p: Post, f: Post -> nat)
    requires i < |posts|
    ensures Total(posts[i := p], f) == Total(posts, f) - f(posts[i]) + f(p)
  {
    if i > 0 {
      assert posts[i := p][1..] == posts[1..][i - 1 := p];
      TotalUpdate(posts[1..], i - 1, p, f);
    } else {
      assert posts[i := p][1..] == posts[1..];
    }
  }

  // ---------------------------------------------------------------------------
  // The list filter of renderAllPosts

  predicate IsMine(p: Post) { p.author.id == CurrentUser.id }

  predicate IsDoctorPost(p: Post) { p.author.role == "doctor" }

  predicate InCategory(p: Post, category: string) { Lower(p.category) == Lower(category) }

  predicate MatchesQuery(p: Post, query: string) {
    Includes(Lower(p.title), Lower(query)) || Includes(Lower(p.content), Lower(query))
  }

  /** The posts `renderAllPosts(tab, categoryFilter, searchQuery)` shows, as its
      chain of `filter` calls computes them; an empty category or query (falsy
      in the source) skips its filter. */
  function FilterPosts(posts: seq<Post>, tab: string, category: string, query: string): seq<Post> {
    var byOwner := if tab == "my" then Filter(posts, IsMine) else posts;
    var byRole := if tab == "doctor" then Filter(byOwner, IsDoctorPost) else byOwner;
    var byCategory :=
      if category != "" then Filter(byRole, (p: Post) => InCategory(p, category)) else byRole;
    if query != "" then Filter(byCategory, (p: Post) => MatchesQuery(p, query)) else byCategory
  }

  /** Reference definition: a post is shown when it passes every filter that
      is switched on. */
  predicate Shown(p: Post, tab: string, category: string, query: string) {
    (tab == "my" ==> IsMine(p))
    && (tab == "doctor" ==> IsDoctorPost(p))
    && (category != "" ==> InCategory(p, category))
    && (query != "" ==> MatchesQuery(p, query))
  }

  /** The chain of filters is one filter by `Shown`. */
  lemma FilterPostsIsShown(posts: seq<Post>, tab: string, category: string, query: string)
    ensures FilterPosts(posts, tab, category, query)
      == Filter(posts, (p: Post) => Shown(p, tab, category, query))
  {
    var f1 := (p: Post) => tab == "my" ==> IsMine(p);
    var f2 := (p: Post) => f1(p) && (tab == "doctor" ==> IsDoctorPost(p));
    var f3 := (p: Post) => f2(p) && (category != "" ==> InCategory(p, category));
    var f4 := (p: Post) => f3(p) && (query != "" ==> MatchesQuery(p, query));
    var inCategory := (p: Post) => InCategory(p, category);
    var matches := (p: Post) => MatchesQuery(p, query);

    var byOwner := if tab == "my" then Filter(posts, IsMine) else posts;
    if tab == "my" { FilterExt(posts, IsMine, f1); } else { FilterAll(posts, f1); }
    assert byOwner == Filter(posts, f1);

    var byRole := if tab == "doctor" then Filter(byOwner, IsDoctorPost) else byOwner;
    if tab == "doctor" { FilterFilter(posts, f1, IsDoctorPost, f2); } else { FilterExt(posts, f1, f2); }
    assert byRole == Filter(posts, f2);

    var byCategory := if category != "" then Filter(byRole, inCategory) else byRole;
    if category != "" { FilterFilter(posts, f2, inCategory, f3); } else { FilterExt(posts, f2, f3); }
    assert byCategory == Filter(posts, f3);

    var shown := if query != "" then Filter(byCategory, matches) else byCategory;
    if query != "" { FilterFilter(posts, f3, matches, f4); } else { FilterExt(posts, f3, f4); }
    FilterExt(posts, f4, (p: Post) => Shown(p, tab, category, query));
  }

  /** What the list shows: the stored posts in their stored order, with some
      left out; exactly the posts that pass every switched-on filter are kept,
      each as often as it is stored. */
  lemma FilterPostsSpec(posts: seq<Post>, tab: string, category: string, query: string)
    ensures IsSubsequence(FilterPosts(posts, tab, category, query), posts)
    ensures forall p :: (multiset(FilterPosts(posts, tab, category, query))[p]
      == if Shown(p, tab, category, query) then multiset(posts)[p] else 0)
    ensures forall p :: (p in FilterPosts(posts, tab, category, query)
      <==> p in posts && Shown(p, tab, category, query))
  {
    FilterPostsIsShown(posts, tab, category, query);
    var shown := (p: Post) => Shown(p, tab, category, query);
    FilterSpec(posts, shown);
    var r := FilterPosts(posts, tab, category, query);
    forall p ensures p in r <==> p in posts && Shown(p, tab, category, query) {
      assert p in r <==> multiset(r)[p] > 0;
      assert p in posts <==> multiset(posts)[p] > 0;
    }
  }

  // ---------------------------------------------------------------------------
  // The category list of populateCategoryDropdown

  /** `posts.map(p => p.category)`. */
  function CategoriesOf(posts: seq<Post>): (r: seq<string>)
    ensures |r| == |posts|
    ensures forall i :: 0 <= i < |posts| ==> r[i] == posts[i].category
  {
    seq(|posts|, i requires 0 <= i < |posts| => posts[i].category)
  }

  /** `[...new Set(cats.filter(Boolean))]`: a `Set` keeps the first insertion
      of each value, so each value is added when it is first met. */
  function DistinctNonEmpty(cats: seq<string>): seq<string> {
    if cats == [] then []
    else
      var seen := DistinctNonEmpty(cats[..|cats| - 1]);
      var c := cats[|cats| - 1];
      if c == "" || c in seen then seen else seen + [c]
  }

  /** The option list of the category filter. */
  function CategoryList(posts: seq<Post>): seq<string> {
    DistinctNonEmpty(CategoriesOf(posts))
  }

  lemma {:induction false} DistinctNonEmptySpec(cats: seq<string>)
    ensures NoDup(DistinctNonEmpty(cats))
    ensures forall c :: c in DistinctNonEmpty(cats) <==> c in cats && c != ""
    ensures forall i, j :: 0 <= i < j < |DistinctNonEmpty(cats)| ==>
      FirstIndex(cats, DistinctNonEmpty(cats)[i]) < FirstIndex(cats, DistinctNonEmpty(cats)[j])
  {
    if cats != [] {
      var init, c := cats[..|cats| - 1], cats[|cats| - 1];
      assert cats == init + [c];
      DistinctNonEmptySpec(init);
      var seen := DistinctNonEmpty(init);
      var r := DistinctNonEmpty(cats);
      forall x | x in seen ensures FirstIndex(cats, x) == FirstIndex(init, x) {
        FirstIndexAppend(init, c, x);
      }
      if c == "" || c in seen {
        assert r == seen;
        assert forall x :: x in cats <==> x in init || x == c;
      } else {
        assert r == seen + [c];
        assert c !in init;
        forall i, j | 0 <= i < j < |r| ensures r[i] != r[j] {
          assert r[i] == seen[i];
          if j < |seen| {
            assert r[j] == seen[j];
          }
        }
        assert forall x :: x in r <==> x in seen || x == c;
        assert forall x :: x in cats <==> x in init || x == c;
        assert FirstIndex(cats, c) == |init|;
        forall i, j | 0 <= i < j < |r|
          ensures FirstIndex(cats, r[i]) < FirstIndex(cats, r[j])
        {
          assert r[i] == seen[i];
          if j < |seen| {
            assert r[j] == seen[j];
          }
        }
      }
    }
  }

  /** What the category list holds: each non-empty category of the store
      exactly once, in the order in which the categories first occur among
      the posts. */
  lemma CategoryListSpec(posts: seq<Post>)
    ensures NoDup(CategoryList(posts))
    ensures forall c :: c in CategoryList(posts) <==>
      c != "" && exists i :: 0 <= i < |posts| && posts[i].category == c
    ensures forall i, j :: 0 <= i < j < |CategoryList(posts)| ==>
      FirstIndex(CategoriesOf(posts), CategoryList(posts)[i])
        < FirstIndex(CategoriesOf(posts), CategoryList(posts)[j])
  {
    var cats := CategoriesOf(posts);
    DistinctNonEmptySpec(cats);
    forall c ensures c in cats <==> exists i :: 0 <= i < |posts| && posts[i].category == c {
      if c in cats {
        var i :| 0 <= i < |cats| && cats[i] == c;
        assert posts[i].category == c;
      }
    }
  }

  // ---------------------------------------------------------------------------
  // Create post (the submit handler of the ask page)

  /** The create-post form as submitted: raw title and content, the author
      type control, the chosen category tag and the image as a data URL. */
  datatype Draft = Draft(
    title: string, content: string, authorType: string, category: string, image: Option<string>)

  datatype SubmitOutcome = Created | MissingFields

  /** The result of a handler: the notice it shows and the collection it leaves. */
  datatype Step<O> = Step(outcome: O, posts: seq<Post>)

  /** A post nobody has engaged with yet. */
  predicate Unengaged(p: Post) {
    p.likes == 0 && p.likedBy == [] && p.comments == [] && p.shares == 0
  }

  function AuthorFor(authorType: string): Author {
    if authorType == "doctor" then DemoDoctor else CurrentUser
  }

  /** The submit handler: trimmed title and content and the category must be
      non-empty; then a new post goes to the front of the collection. */
  function SubmitPost(posts: seq<Post>, d: Draft, id: string, now: int): (r: Step<SubmitOutcome>)
    ensures r.outcome == Created <==> HasText(d.title) && HasText(d.content) && d.category != ""
    ensures r.outcome == MissingFields ==> r.posts == posts
    ensures r.outcome == Created ==>
      |r.posts| == |posts| + 1 && r.posts[1..] == posts
      && r.posts[0].id == id && Unengaged(r.posts[0]) && r.posts[0].createdAt == now
      && r.posts[0].title == Trim(d.title) && r.posts[0].content == Trim(d.content)
      && r.posts[0].category == d.category && r.posts[0].image == d.image
      && r.posts[0].author == (if d.authorType == "doctor" then DemoDoctor else CurrentUser)
  {
    var title := Trim(d.title);
    var content := Trim(d.content);
    if title == "" || content == "" || d.category == "" then Step(MissingFields, posts)
    else
      var post := Post(id, title, content, d.image, d.category, AuthorFor(d.authorType),
                       0, [], [], now, 0);
      Step(Created, [post] + posts)
  }

  /** Creating a post with an identifier not yet in use keeps the store well formed. */
  lemma SubmitKeepsWellFormed(posts: seq<Post>, d: Draft, id: string, now: int)
    requires WellFormed(posts)
    requires forall i :: 0 <= i < |posts| ==> posts[i].id != id
    ensures WellFormed(SubmitPost(posts, d, id, now).posts)
  {
    var r := SubmitPost(posts, d, id, now).posts;
    if r != posts {
      forall i, j | 0 <= i < j < |r| ensures r[i].id != r[j].id {
        assert r[j] == posts[j - 1];
        if i > 0 { assert r[i] == posts[i - 1]; }
      }
      forall i | 0 <= i < |r| ensures LikesConsistent(r[i]) {
        if i > 0 { assert r[i] == posts[i - 1]; }
      }
    }
  }

  // ---------------------------------------------------------------------------
  // Comment (the submit button of the comment modal)

  datatype CommentOutcome = CommentPosted | EmptyComment | PostNotFound

  /** `posts.find(p => p.id === id)`, as the position of the first match. */
  function IndexOfId(posts: seq<Post>, id: string): (r: Option<nat>)
    ensures r.Some? ==> r.value < |posts| && posts[r.value].id == id
    ensures r.Some? ==> forall j :: 0 <= j < r.value ==> posts[j].id != id
    ensures r.None? ==> forall j :: 0 <= j < |posts| ==> posts[j].id != id
  {
    if posts == [] then None
    else if posts[0].id == id then Some(0)
    else match IndexOfId(posts[1..], id)
      case None => None
      case Some(i) => Some(i + 1)
  }

  /** The comment handler: the text is trimmed and must be non-empty; the post
      is looked up by the modal's active identifier (none once the modal is
      closed); the comment is appended to that post's comments. */
  function SubmitComment(posts: seq<Post>, active: Option<string>, rawText: string,
                         commentId: string, now: int): (r: Step<CommentOutcome>)
    ensures r.outcome == EmptyComment <==> !HasText(rawText)
    ensures r.outcome == PostNotFound <==>
      HasText(rawText) && (active.None? || forall j :: 0 <= j < |posts| ==> posts[j].id != active.value)
    ensures r.outcome != CommentPosted ==> r.posts == posts
    ensures |r.posts| == |posts|
  {
    var text := Trim(rawText);
    if text == "" then Step(EmptyComment, posts)
    else
      var found := if active.Some? then IndexOfId(posts, active.value) else None;
      if found.None? then Step(PostNotFound, posts)
      else
        var i := found.value;
        var comment := Comment(commentId, CurrentUser, text, now);
        Step(CommentPosted, posts[i := posts[i].(comments := posts[i].comments + [comment])])
  }

  /** A posted comment is exactly one new comment, by the current user with the
      trimmed text, at the end of the first post with the active identifier;
      that post changes in nothing else and every other post is unchanged, so
      the store holds exactly one comment more. */
  lemma SubmitCommentSpec(posts: seq<Post>, active: Option<string>, rawText: string,
                          commentId: string, now: int)
    requires SubmitComment(posts, active, rawText, commentId, now).outcome == CommentPosted
    ensures active.Some? && IndexOfId(posts, active.value).Some?
    ensures var r := SubmitComment(posts, active, rawText, commentId, now).posts;
      var i := IndexOfId(posts, active.value).value;
      r[i].comments == posts[i].comments + [Comment(commentId, CurrentUser, Trim(rawText), now)]
      && r[i].(comments := posts[i].comments) == posts[i]
      && r == posts[i := r[i]]
      && Total(r, CommentCount) == Total(posts, CommentCount) + 1
  {
    var text := Trim(rawText);
    var i := IndexOfId(posts, active.value).value;
    var updated := posts[i].(comments := posts[i].comments + [Comment(commentId, CurrentUser, text, now)]);
    var r := SubmitComment(posts, active, rawText, commentId, now).posts;
    assert r == posts[i := updated];
    TotalUpdate(posts, i, updated, CommentCount);
  }

  /** Commenting keeps the store well formed. */
  lemma SubmitCommentKeepsWellFormed(posts: seq<Post>, active: Option<string>, rawText: string,
                                     commentId: string, now: int)
    requires WellFormed(posts)
    ensures WellFormed(SubmitComment(posts, active, rawText, commentId, now).posts)
  {
    var r := SubmitComment(posts, active, rawText, commentId, now);
    if r.outcome == CommentPosted {
      SubmitCommentSpec(posts, active, rawText, commentId, now);
      var i := IndexOfId(posts, active.value).value;
      assert forall j :: 0 <= j < |posts| ==>
        (r.posts[j].id == posts[j].id && r.posts[j].likes == posts[j].likes
         && r.posts[j].likedBy == posts[j].likedBy);
    }
  }

  // ---------------------------------------------------------------------------
  // Like (the like button of a rendered card)

  /** The like's result. `NoSuchPost` only arises in the corrected like, which
      looks the post up in the store; a rendered card always has its post. */
  datatype LikeOutcome = Liked | AlreadyLiked | NoSuchPost

  predicate LikedByMe(p: Post) { CurrentUser.id in p.likedBy }

  /** What a click does to the card's own post object: if the current user is
      not among `likedBy` yet, the count goes up by one and the user is added;
      otherwise nothing changes. */
  function LikeCard(card: Post): (r: Post)
    ensures LikedByMe(r)
    ensures LikedByMe(card) ==> r == card
    ensures !LikedByMe(card) ==>
      r.likes == card.likes + 1 && r.likedBy == card.likedBy + [CurrentUser.id]
      && r.(likes := card.likes, likedBy := card.likedBy) == card
    ensures LikesConsistent(card) ==> LikesConsistent(r)
  {
    if LikedByMe(card) then card
    else card.(likes := card.likes + 1, likedBy := card.likedBy + [CurrentUser.id])
  }

  /** Liking twice is liking once. */
  lemma LikeCardIdempotent(card: Post)
    ensures LikeCard(LikeCard(card)) == LikeCard(card)
  {
  }

  /** `load().map(p => p.id === post.id ? post : p)`. */
  function ReplaceById(posts: seq<Post>, post: Post): (r: seq<Post>)
    ensures |r| == |posts|
    ensures forall j :: 0 <= j < |posts| ==> r[j] == if posts[j].id == post.id then post else posts[j]
  {
    if posts == [] then []
    else [if posts[0].id == post.id then post else posts[0]] + ReplaceById(posts[1..], post)
  }

  /** The like handler as written: the check and the update are made on the
      card's own copy of the post, taken when the list was rendered, and that
      copy then replaces the stored post with the same identifier. */
  function SaveLike(posts: seq<Post>, card: Post): (r: Step<LikeOutcome>)
    ensures r.outcome == Liked <==> !LikedByMe(card)
    ensures r.outcome == AlreadyLiked ==> r.posts == posts
    ensures |r.posts| == |posts|
    ensures r.outcome != NoSuchPost
    ensures forall j :: 0 <= j < |posts| && posts[j].id != card.id ==> r.posts[j] == posts[j]
    ensures r.outcome == Liked ==>
      forall j :: 0 <= j < |posts| && posts[j].id == card.id ==> r.posts[j] == LikeCard(card)
  {
    if LikedByMe(card) then Step(AlreadyLiked, posts)
    else Step(Liked, ReplaceById(posts, LikeCard(card)))
  }

  /** The stored post is overwritten by the card's copy: its comments become the
      card's, whatever has been added to the store since the card was rendered. */
  lemma SaveLikeOverwrites(posts: seq<Post>, card: Post, i: nat)
    requires i < |posts| && posts[i].id == card.id && !LikedByMe(card)
    ensures SaveLike(posts, card).posts[i].comments == card.comments
  {
  }

  /** Commenting on the only stored post appends the comment to it. */
  lemma CommentOnOnlyPost(p: Post, text: string, commentId: string, now: int)
    requires HasText(text) && Trim(text) == text
    ensures SubmitComment([p], Some(p.id), text, commentId, now).posts
      == [p.(comments := p.comments + [Comment(commentId, CurrentUser, text, now)])]
  {
    assert IndexOfId([p], p.id) == Some(0);
  }

  /** A card rendered from `[p]`, a comment then posted on `p` from the modal,
      and a like on the card: the stored post ends with no comment. */
  lemma StaleLikeLosesComment()
    ensures var p := Post("p1", "Help", "Need advice", None, "General", CurrentUser,
                          0, [], [], 0, 0);
      var card := FilterPosts([p], "all", "", "")[0];
      var stored := SubmitComment([p], Some("p1"), "Thanks", "c1", 5).posts;
      |stored[0].comments| == 1 && SaveLike(stored, card).posts[0].comments == []
  {
    var p := Post("p1", "Help", "Need advice", None, "General", CurrentUser, 0, [], [], 0, 0);
    assert FilterPosts([p], "all", "", "") == [p];
    TrimUntouched("Thanks");
    assert HasText("Thanks") by { assert !IsWhitespace("Thanks"[0]); }
    CommentOnOnlyPost(p, "Thanks", "c1", 5);
    var stored := SubmitComment([p], Some("p1"), "Thanks", "c1", 5).posts;
    SaveLikeOverwrites(stored, p, 0);
  }

  /** Corrected like: the current stored post is looked up by identifier and
      liked there, so nothing added to it since rendering is lost. */
  function LikeInStore(posts: seq<Post>, id: string): (r: Step<LikeOutcome>)
    ensures |r.posts| == |posts|
  {
    match IndexOfId(posts, id)
    case None => Step(NoSuchPost, posts)
    case Some(i) =>
      if LikedByMe(posts[i]) then Step(AlreadyLiked, posts)
      else Step(Liked, posts[i := LikeCard(posts[i])])
  }

  /** The corrected like changes at most the likes of the first post with
      that identifier: one more like exactly when the user had not liked it
      yet, every comment kept, every other post unchanged. */
  lemma LikeInStoreSpec(posts: seq<Post>, id: string)
    ensures var r := LikeInStore(posts, id);
      (forall j :: 0 <= j < |posts| ==> r.posts[j].comments == posts[j].comments)
      && (forall j :: 0 <= j < |posts| && posts[j].id != id ==> r.posts[j] == posts[j])
      && (r.outcome == NoSuchPost <==> IndexOfId(posts, id).None?)
      && (r.outcome != Liked ==> r.posts == posts)
      && (r.outcome == Liked <==>
            IndexOfId(posts, id).Some? && !LikedByMe(posts[IndexOfId(posts, id).value]))
      && Total(r.posts, LikeCount) == Total(posts, LikeCount) + (if r.outcome == Liked then 1 else 0)
      && (r.outcome == Liked ==>
            r.posts == posts[IndexOfId(posts, id).value := LikeCard(posts[IndexOfId(posts, id).value])])
  {
    match IndexOfId(posts, id)
    case None =>
    case Some(i) =>
      if !LikedByMe(posts[i]) {
        TotalUpdate(posts, i, LikeCard(posts[i]), LikeCount);
      }
  }

  /** Liking a second time changes nothing. */
  lemma LikeInStoreIdempotent(posts: seq<Post>, id: string)
    ensures var r := LikeInStore(posts, id);
      LikeInStore(r.posts, id) == Step(if r.outcome == NoSuchPost then NoSuchPost else AlreadyLiked, r.posts)
  {
    var r := LikeInStore(posts, id);
    match IndexOfId(posts, id)
    case None =>
    case Some(i) =>
      assert IndexOfId(r.posts, id) == Some(i) by {
        assert forall k :: 0 <= k < |posts| ==> r.posts[k].id == posts[k].id;
      }
  }

  /** With unique identifiers, the handler as written agrees with the corrected
      like whenever the card is the current stored post. */
  lemma FreshCardAgrees(posts: seq<Post>, i: nat)
    requires UniqueIds(posts) && i < |posts|
    ensures SaveLike(posts, posts[i]) == LikeInStore(posts, posts[i].id)
  {
    var id := posts[i].id;
    assert IndexOfId(posts, id) == Some(i) by {
      var k := IndexOfId(posts, id).value;
      assert k == i;
    }
    var a, b := SaveLike(posts, posts[i]), LikeInStore(posts, id);
    if !LikedByMe(posts[i]) {
      assert forall j :: 0 <= j < |posts| ==> a.posts[j] == b.posts[j];
    }
  }

  /** Both versions of the like keep the store well formed, the one as written
      provided the card itself was well formed when it was rendered. */
  lemma LikeKeepsWellFormed(posts: seq<Post>, card: Post, id: string)
    requires WellFormed(posts)
    ensures LikesConsistent(card) ==> WellFormed(SaveLike(posts, card).posts)
    ensures WellFormed(LikeInStore(posts, id).posts)
  {
    var a := SaveLike(posts, card).posts;
    assert forall j :: 0 <= j < |posts| ==> a[j].id == posts[j].id;
    var b := LikeInStore(posts, id).posts;
    assert forall j :: 0 <= j < |posts| ==> b[j].id == posts[j].id;
  }
}
