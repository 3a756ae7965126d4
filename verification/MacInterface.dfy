/** What the encoder and decoder of MAC-SAP frames and their checksum share. */
module MacInterface {
  const MAX_MAC_IF_FRAME_LENGTH: nat := 128
}
