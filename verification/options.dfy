/** The optional value returned by intersection queries, by the scene scan and by draws
    from a finite stream of random numbers. */
module Options {

  datatype Option<+T> = None | Some(value: T)
}
