/** The usual Some/None wrapper, used for the font-engine query that may fail,
    for the compute-once cache and for the follow-up message an update returns. */
module Optional {

  datatype Option<+T> = None | Some(value: T)
}
