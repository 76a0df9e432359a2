/** Definitions of src/libbaalue.h that both protocols share. */
module Common {
  import opened CInt

  datatype Option<+T> = None | Some(value: T)

  /** Bytes a receive buffer holds. */
  const MAX_LEN_MSG := 100

  const PTYPE_SCHED_PROPS: Byte := 0x00
  const PTYPE_DEVICE_MGMT: Byte := 0x01
  const PTYPE_HALT: Byte := 0x02
  const PTYPE_REBOOT: Byte := 0x03
  const PTYPE_PING: Byte := 0x04
  const PTYPE_RESET: Byte := 0xEE
  const PTYPE_ERROR: Byte := 0xEF
  const PTYPE_CMD_ACK: Byte := 0xFD
  const PTYPE_RCV_ACK: Byte := 0xFF
}
