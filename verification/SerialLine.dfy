/**
 What a serial port can do to its reader (src/device/serial_port.h), and what a device's
 read reports upwards (src/device/device_interface.h).
 */
module SerialLine {
  import opened Words

  const READ_SIZE: nat := 256

  /** The next thing the serial line does. Broken fails whichever call meets it. */
  datatype LineEvent = Silence | Broken | Chunk(data: seq<Byte>)

  /** A read yields at least one byte and at most what its buffer holds. */
  predicate Possible(e: LineEvent) {
    e.Chunk? ==> 0 < |e.data| <= READ_SIZE
  }

  datatype ReadCode = Data | Timeout | ProtocolError | TransportError
}
