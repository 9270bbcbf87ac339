/** The two record types the client passes around. */
module Models {
  import opened Wrappers

  /** One physical store as the directory lists it; `country` may be empty, `coordinates` are [longitude, latitude] or empty. */
  datatype Store = Store(
    buCode: string,
    name: string,
    countryCode: string,
    country: string,
    coordinates: seq<real>)

  /**
   * One (product, store) observation of availability. `updatedAt` is `None`
   * when the availability block has no update time: the client stores
   * Python's `None` there although the field is declared `str`.
   */
  datatype StockInfo = StockInfo(
    productId: string,
    buCode: string,
    storeName: string,
    countryCode: string,
    country: string,
    stock: int,
    probability: string,
    updatedAt: Option<string>)
}
