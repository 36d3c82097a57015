/** The optional value both pages' models return where the source may make
    no request or send nothing. */
module Options {

  datatype Option<T> = None | Some(value: T)
}
