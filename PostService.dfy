/**
  The in-memory post store of `services/postService.ts`: the module-level list
  that `createPost` prepends to and `getPosts`/`getPostBySlug` read.
*/
module PostService {
  import opened Wrappers
  import opened Types

  /** `Math.floor(Math.random() * 1000)`: the random draw is a parameter, its range is its type. */
  type RandomId = x: int | 0 <= x < 1000

  /** Bodies of the three initial posts. */
  const Post1Content: string :=
    "먼저 이 글은 **Kotlin + Spring** 기준으로 작성된 글임을 알립니다.\n\n코드를 작성하다 보면 여러 분기에 따라서 다른 로직을 적용해야 하는 경우를 심심찮게 볼 수 있습니다. 간단한 예시를 만들어보겠습니다. 쇼핑몰 등 결제가 필요한 서비스에서 신용카드, 휴대폰결제, 간편결제, 무통장입금 이렇게 네 가지 결제 방식을 지원한다고 해보겠습니다.\n\n```kotlin\ninterface PaymentStrategy {\n    fun pay(amount: Long)\n}\n```\n\n이런 식으로 전략 패턴을 도입하면 유지보수가 쉬워집니다."
  const Post2Content: string :=
    "개발을 하다 보면 소수를 나타내거나 소수를 가지고 연산을 해야 하는 경우가 많습니다. \n\n별 반 개 단위로 나타낼 수 있는 별점을 나타내거나, 정수로 나타낸 점수지만 평균을 구하거나... 정말 많은 곳에 소수를 사용해야 합니다. \n\n특히나 **금전** 관련되어서는 더 많은 사용처가 존재합니다."
  const Post3Content: string :=
    "# JPA N+1 문제\n\nJPA를 사용하다 보면 가장 흔하게 마주치는 성능 문제입니다. \n\n`Fetch Join`을 사용하여 해결할 수 있습니다.\n\n```java\n@Query(\"select p from Post p join fetch p.comments\")\nList<Post> findAllWithComments();\n```"

  /** The three posts the list holds before anything is created. */
  function InitialPosts(): (ps: seq<Post>)
    ensures |ps| == 3
  {
    [
      Post(1,
        "전략 패턴, 코틀린과 스프링으로 효율적으로 써보자",
        Post1Content,
        "strategy-pattern-kotlin",
        Some("디자인 패턴 정복"),
        ["Spring", "Kotlin", "DesignPattern"],
        "2024-03-01T10:00:00"),
      Post(2,
        "은행 개발자와 알아보는 코틀린 BigDecimal",
        Post2Content,
        "kotlin-bigdecimal",
        None,
        ["Java", "Kotlin", "Money"],
        "2024-02-12T15:30:00"),
      Post(3,
        "JPA 정복하기: N+1 문제 해결",
        Post3Content,
        "jpa-n-plus-one",
        Some("스프링 부트 시리즈"),
        ["JPA", "Spring", "Database"],
        "2024-01-20T09:00:00")
    ]
  }

  /** `Array.prototype.find` on the slug: the first post carrying `slug`, or `null`. */
  function FindBySlug(posts: seq<Post>, slug: string): (r: Option<Post>)
    ensures r.None? <==> forall i :: 0 <= i < |posts| ==> posts[i].slug != slug
    ensures r.Some? ==> exists i :: 0 <= i < |posts| && posts[i] == r.value && r.value.slug == slug
                                    && forall j :: 0 <= j < i ==> posts[j].slug != slug
  {
    if posts == [] then None
    else if posts[0].slug == slug then Some(posts[0])
    else
      var r := FindBySlug(posts[1..], slug);
      if r.Some? then FirstMatchShifts(posts, slug, r.value); r else r
  }

  /** A first match in the tail is a first match in the whole list when the head does not match. */
  lemma FirstMatchShifts(posts: seq<Post>, slug: string, p: Post)
    requires posts != [] && posts[0].slug != slug
    requires exists i :: 0 <= i < |posts| - 1 && posts[1..][i] == p && p.slug == slug
                         && forall j :: 0 <= j < i ==> posts[1..][j].slug != slug
    ensures exists i :: 0 <= i < |posts| && posts[i] == p && p.slug == slug
                        && forall j :: 0 <= j < i ==> posts[j].slug != slug
  {
    var i :| 0 <= i < |posts| - 1 && posts[1..][i] == p && p.slug == slug
             && forall j :: 0 <= j < i ==> posts[1..][j].slug != slug;
    assert posts[i + 1] == p;
    forall j | 0 <= j < i + 1 ensures posts[j].slug != slug {
      if j > 0 { assert posts[j] == posts[1..][j - 1]; }
    }
  }

  /** The post `createPost` builds from a request; an empty or absent series name becomes `null`. */
  function NewPost(data: PostCreateRequest, id: RandomId, createdAt: string): Post
  {
    Post(id, data.title, data.content, data.slug,
         if data.seriesName == None || data.seriesName == Some("") then None else data.seriesName,
         data.tags, createdAt)
  }

  /** Looking a slug up after a prepend sees the new post first. */
  lemma LookupAfterPrepend(p: Post, posts: seq<Post>, slug: string)
    ensures FindBySlug([p] + posts, slug) == if p.slug == slug then Some(p) else FindBySlug(posts, slug)
  {
    assert ([p] + posts)[1..] == posts;
  }

  class PostStore {
    /** `MOCK_POSTS`, newest first. */
    var posts: seq<Post>

    constructor()
      ensures posts == InitialPosts()
    {
      posts := InitialPosts();
    }

    /** `getPosts`: a copy of the list (a `seq` value, so later edits to it cannot reach the store). */
    method GetPosts() returns (r: seq<Post>)
      ensures r == posts
    {
      r := posts;
    }

    /** `getPostBySlug`: the first stored post with that slug, or `null`; the store is not changed. */
    method GetPostBySlug(slug: string) returns (r: Option<Post>)
      ensures r == FindBySlug(posts, slug)
    {
      r := FindBySlug(posts, slug);
    }

    /** `createPost`: builds the post, puts it at index 0 and returns it. Slugs are not checked for uniqueness. */
    method CreatePost(data: PostCreateRequest, id: RandomId, createdAt: string) returns (p: Post)
      modifies this
      ensures p == NewPost(data, id, createdAt) && posts == [p] + old(posts)
      ensures |posts| == |old(posts)| + 1 && posts[0] == p && posts[1..] == old(posts)
      ensures 0 <= p.id < 1000 && p.id == id && p.createdAt == createdAt
      ensures p.title == data.title && p.content == data.content && p.slug == data.slug && p.tags == data.tags
      ensures p.seriesName == if data.seriesName == None || data.seriesName == Some("") then None else data.seriesName
      ensures FindBySlug(posts, data.slug) == Some(p)
    {
      p := NewPost(data, id, createdAt);
      posts := [p] + posts;
      LookupAfterPrepend(p, old(posts), data.slug);
    }
  }
}
