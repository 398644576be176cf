/** The store records of the catalog and the keys the search sorts them by. */
module StoreCatalog {
  import opened Text

  /** One catalog entry; the catalog itself is an immutable `seq<Store>`. */
  datatype Store = Store(name: string, postcode: string)

  /** The key of the postcode ordering: the postcode upper-cased, spaces kept. */
  function PostcodeKey(s: Store): string
  {
    Upper(s.postcode)
  }

  /** The key of the name ordering: the name upper-cased. */
  function NameKey(s: Store): string
  {
    Upper(s.name)
  }
}
