/** Result wrappers shared by every module of the model. */
module Outcomes {

  /** An optional value: a C pointer that may be null, a slot that may be empty. */
  datatype Option<+T> = None | Some(value: T)

  /** What a kernel routine ends in: it returns normally, or it calls panic()
      and the machine stops. A panic carries a short reason for the reader. */
  datatype Outcome<+T> = Done(value: T) | Panic(reason: string)
}
