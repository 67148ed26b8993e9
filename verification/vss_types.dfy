/** Integer widths, opaque identities and open flags shared by the storage-node modules. */
module VssTypes {

  type U64 = n: int | 0 <= n < 0x1_0000_0000_0000_0000
  type U32 = n: int | 0 <= n < 0x1_0000_0000

  /** A remote client object (`vss_object*`); only its identity matters. */
  type ObjectId = nat

  /** A request that is suspended and later handed back to the server. */
  type Context = nat

  // what an open asks for, and what it lets others do meanwhile
  const OPEN_READ: bv32 := 0x1
  const OPEN_WRITE: bv32 := 0x2
  const OPEN_DELETE: bv32 := 0x4
  const SHARE_READ: bv32 := 0x1_0000
  const SHARE_WRITE: bv32 := 0x2_0000
  const SHARE_DELETE: bv32 := 0x4_0000

  // what it does when the file exists or does not
  const OPEN_ALWAYS: bv32 := 0x8
  const CREATE_ALWAYS: bv32 := 0x10
  const CREATE_NEW: bv32 := 0x20
}
