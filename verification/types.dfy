/** Basic value types shared by every part of the model. */
module Types {

  /** One octet of a Node.js `Buffer`. */
  type Byte = b: int | 0 <= b < 256

  type Bytes = seq<Byte>

  /** A MongoDB `ObjectId`, abstracted to a natural number handed out by a counter. */
  type Id = nat

  datatype Option<+T> = None | Some(value: T)

  /** One element of a file's embedded `accessLog` array. */
  datatype AccessEntry = AccessEntry(userId: Id, action: string, timestamp: nat, ipAddress: string)
}
