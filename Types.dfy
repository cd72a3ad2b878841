/** The records of `types.ts`: a stored post and the request that creates one. */
module Types {
  import opened Wrappers

  /** A stored post; `seriesName` is `null` when the post belongs to no series. */
  datatype Post = Post(
    id: int,
    title: string,
    content: string,
    slug: string,
    seriesName: Option<string>,
    tags: seq<string>,
    createdAt: string)

  datatype Status = Published | Draft

  /** What the editor sends; `seriesName` is optional (`undefined` when absent). */
  datatype PostCreateRequest = PostCreateRequest(
    title: string,
    content: string,
    slug: string,
    seriesName: Option<string>,
    tags: seq<string>,
    status: Status)
}
