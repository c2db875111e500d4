/** A nullable value: SQL NULL, JavaScript `null`/`undefined`, or an absent form field. */
module Maybe {

  datatype Option<+T> = None | Some(value: T)

}
