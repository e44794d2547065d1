/** The image records both galleries show, the rule that decides which of
    them a category filter lets through, and the `Math.min` the paging uses. */
module Images {

  /** One gallery image. The image URL is presentation data and is not kept. */
  datatype Image = Image(caption: string, category: string)

  /** The filter value that selects every category. */
  const All: string := "all"

  /** An item of `category` is shown under `filter` when the filter is
      "all" or names exactly that category. */
  predicate Visible(filter: string, category: string)
  {
    filter == All || filter == category
  }

  /** The smaller of two numbers, as `Math.min`. */
  function Min(a: int, b: int): (m: int)
    ensures m <= a && m <= b && (m == a || m == b)
  {
    if a < b then a else b
  }
}
