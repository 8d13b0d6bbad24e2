/** The store's optional values: a TypeScript `undefined` field or a `null` selection. */
module Optional {

  datatype Option<+T> = None | Some(value: T)
}
