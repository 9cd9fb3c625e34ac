/** The optional-value datatype shared by the scans of the model: a scan
    that may find nothing returns `None`, otherwise `Some` of what it found. */
module Wrappers {

  datatype Option<+T> = None | Some(value: T)

}
