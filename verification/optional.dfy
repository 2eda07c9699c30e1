/** The "no value" result that every fallible operation of the library returns
    (JavaScript's `undefined`). */
module Optional {

  datatype Option<+T> = None | Some(value: T)
}
