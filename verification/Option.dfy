/** The conventional optional value, used where the kernel returns NULL. */
module Options {
  datatype Option<+T> = None | Some(value: T)
}
