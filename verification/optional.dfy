/** A nullable value: `None` stands for JavaScript's `null`. */
module Optional {

  datatype Option<+T> = None | Some(value: T)

}
