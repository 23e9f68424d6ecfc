/** The record fetched from the remote API. */
module Todo {

  /** One byte of a response body. */
  newtype byte = x: int | 0 <= x < 256

  /** A decoded to-do record (the JSON fields userId, id, title, completed). */
  datatype Item = Item(userId: int, id: int, title: string, completed: bool)
}
