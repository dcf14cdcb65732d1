/** An optional value: `null` in the client, `None` on the server. */
module Optional {

  datatype Option<T> = None | Some(value: T)
}
