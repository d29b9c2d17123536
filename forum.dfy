/** The forum page: the state the script keeps at module level and the
    handlers that read and rewrite the stored collection. */
module ForumPage {
  import opened Text
  import opened Posts

  class Forum {
    /** The collection under the storage key: what `Storage.load` returns and
        `Storage.save` overwrites. */
    var posts: seq<Post>

    /** The post object each rendered card holds, in list order. A card keeps
        its object until the list is rendered again. */
    var cards: seq<Post>

    /** `activeCommentPostId`: the post whose comment modal was opened last. */
    var activeCommentPostId: Option<string>

    /** `currentTab`: declared with "all" and never reassigned. */
    const currentTab: string := "all"

    /** Loads the stored collection; a missing or malformed value reads as empty. */
    constructor (stored: Option<seq<Post>>)
      ensures posts == (if stored.Some? then stored.value else [])
      ensures cards == [] && activeCommentPostId == None
    {
      posts := if stored.Some? then stored.value else [];
      cards := [];
      activeCommentPostId := None;
    }

    /** `renderAllPosts`: the cards become the filtered posts, and the category
        options are derived from the whole store. */
    method RenderAllPosts(tab: string, category: string, query: string)
      returns (categories: seq<string>)
      modifies this`cards
      ensures cards == FilterPosts(posts, tab, category, query)
      ensures categories == CategoryList(posts)
    {
      cards := FilterPosts(posts, tab, category, query);
      categories := CategoryList(posts);
    }

    /** The category control's change handler, which renders with `currentTab`. */
    method ChangeCategory(category: string, search: string) returns (categories: seq<string>)
      modifies this`cards
      ensures cards == FilterPosts(posts, "all", category, search)
      ensures categories == CategoryList(posts)
    {
      categories := RenderAllPosts(currentTab, category, search);
    }

    /** The search handler, which trims the query and renders with `currentTab`. */
    method Search(category: string, rawSearch: string) returns (categories: seq<string>)
      modifies this`cards
      ensures cards == FilterPosts(posts, "all", category, Trim(rawSearch))
      ensures categories == CategoryList(posts)
    {
      categories := RenderAllPosts(currentTab, category, Trim(rawSearch));
    }

    /** `posts.find(p => p.id === id)`: a left-to-right scan for the first
        post with that identifier. */
    method FindPost(id: string) returns (r: Option<nat>)
      ensures r.Some? ==> r.value < |posts| && posts[r.value].id == id
      ensures r.Some? ==> forall j :: 0 <= j < r.value ==> posts[j].id != id
      ensures r.None? ==> forall j :: 0 <= j < |posts| ==> posts[j].id != id
      ensures r == IndexOfId(posts, id)
    {
      var i := 0;
      while i < |posts|
        invariant 0 <= i <= |posts|
        invariant forall j :: 0 <= j < i ==> posts[j].id != id
      {
        if posts[i].id == id {
          return Some(i);
        }
        i := i + 1;
      }
      return None;
    }

    /** `showCommentModal`: records the post as the active one, whether or not
        it is still stored, and reports whether it was found. */
    method OpenComments(postId: string) returns (found: bool)
      modifies this`activeCommentPostId
      ensures activeCommentPostId == Some(postId)
      ensures found <==> exists j :: 0 <= j < |posts| && posts[j].id == postId
    {
      activeCommentPostId := Some(postId);
      var i := FindPost(postId);
      found := i.Some?;
    }

    /** Closing the modal clears the active post. */
    method CloseComments()
      modifies this`activeCommentPostId
      ensures activeCommentPostId == None
    {
      activeCommentPostId := None;
    }

    /** The modal's submit handler: validates the trimmed text, finds the active
        post in the store, appends the comment and saves. */
    method SubmitComment(rawText: string, commentId: string, now: int)
      returns (outcome: CommentOutcome)
      modifies this`posts
      ensures Step(outcome, posts)
        == Posts.SubmitComment(old(posts), activeCommentPostId, rawText, commentId, now)
    {
      var text := Trim(rawText);
      if text == "" {
        return EmptyComment;
      }
      if activeCommentPostId.None? {
        return PostNotFound;
      }
      var found := FindPost(activeCommentPostId.value);
      if found.None? {
        return PostNotFound;
      }
      var i := found.value;
      var post := posts[i];
      post := post.(comments := post.comments + [Comment(commentId, CurrentUser, text, now)]);
      posts := posts[i := post];
      outcome := CommentPosted;
    }

    /** The create form's submit handler: validates, then puts the new post in
        front of the stored ones (`unshift`) and saves. */
    method SubmitPost(d: Draft, id: string, now: int) returns (outcome: SubmitOutcome)
      modifies this`posts
      ensures Step(outcome, posts) == Posts.SubmitPost(old(posts), d, id, now)
    {
      var title := Trim(d.title);
      var content := Trim(d.content);
      if title == "" || content == "" || d.category == "" {
        return MissingFields;
      }
      var author := AuthorFor(d.authorType);
      var post := Post(id, title, content, d.image, d.category, author, 0, [], [], now, 0);
      posts := [post] + posts;
      outcome := Created;
    }

    /** The like button of card `k`: the card's own post object is checked and
        updated in place, then it replaces the stored post with its identifier. */
    method Like(k: nat) returns (outcome: LikeOutcome)
      requires k < |cards|
      modifies this`posts, this`cards
      ensures cards == old(cards)[k := LikeCard(old(cards)[k])]
      ensures Step(outcome, posts) == SaveLike(old(posts), old(cards)[k])
    {
      var post := cards[k];
      if CurrentUser.id in post.likedBy {
        return AlreadyLiked;
      }
      post := post.(likes := post.likes + 1, likedBy := post.likedBy + [CurrentUser.id]);
      cards := cards[k := post];
      posts := ReplaceById(posts, post);
      outcome := Liked;
    }
  }
}
