/** An optional value: what date parsing and start-up loading yield when they may fail. */
module Options {

  datatype Option<+T> = None | Some(value: T)
}
