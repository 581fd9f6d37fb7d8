/** Values the tester may lack: the receive that never started the clock,
    the header that announces no body, the address not given on the
    command line. */
module Optional {
  datatype Option<T> = None | Some(value: T)
}
