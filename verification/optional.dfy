/** The found / not-found result used by the lookups of both maps. */
module Optional {

  /** `None` stands for the nil result and `false` flag the source returns. */
  datatype Option<+T> = None | Some(value: T)
}
