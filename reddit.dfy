/** What the bot reads of a post: its comments, as `submission.comments.list()` returns them. */
module Reddit {
  import opened Wrappers

  /** A comment of the post's flattened comment list (replies to other comments included): its
      author (None for a deleted account) and the integers the series' pattern matched in its
      body, in order. */
  datatype Comment = Comment(author: Option<string>, numbers: seq<int>)
}
