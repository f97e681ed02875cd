/** An optional value: `None` stands for JavaScript's NaN or `undefined` where the
    pipeline can produce one of those instead of a usable value. */
module Options {

  datatype Option<+T> = None | Some(value: T)

}
