/** The optional value used where the tracker stores `null`: no running timer, or a
    project-level timer that has no element id. */
module Optional {

  datatype Option<+T> = None | Some(value: T)
}
