/** The optional value used where SelfOnlyCounterModule keeps a "nothing yet" sentinel. */
module Options {

  datatype Option<+T> = None | Some(value: T)

}
