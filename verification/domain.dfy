/** The value types the server and the client share. */
module Domain {
  import opened Wrappers

  /** A row of the `sweets` table, and the JSON object the client keeps for it. */
  datatype Sweet = Sweet(
    id: int,
    name: string,
    category: string,
    price: int,
    quantity: int,
    image: string,
    description: string)

  /**
   * The four search inputs (`q`, `category`, `min`, `max`). An empty string is an unset
   * text filter; `None` is an unset bound, `Some(n)` a bound typed as the number n.
   */
  datatype Filter = Filter(q: string, category: string, min: Option<int>, max: Option<int>)

  /** No filter set: the whole catalog. */
  const NoFilter := Filter("", "", None, None)
}
