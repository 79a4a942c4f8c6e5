/** Raw storage and the lifetime of the object in it. */
module Storage {
  datatype Slot<T> = Raw | Live(val: T) | MovedFrom
}
