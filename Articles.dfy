/** The rows of the `articles` table. */
module Articles {
  import opened Sql

  /**
   * The five columns an INSERT or UPDATE writes. A field the request leaves out is bound
   * as NULL (`None`), which overrides the column's DEFAULT.
   */
  datatype Fields = Fields(
    title: Option<string>,
    timestamp: Option<string>,
    author: Option<string>,
    isused: Option<int>,
    pageviews: Option<int>)

  /** A row as `SELECT *` returns it: the `mettingroom_id` key and the five columns. */
  datatype Article = Article(id: int, fields: Fields)
}
