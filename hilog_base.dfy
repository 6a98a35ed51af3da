/** Module-level constants of the HiLog header encoder and the integer cast
    (`as u16`) that the encoder applies to its inputs. */
module HilogBase {

  /** Directory holding the logging daemon's local sockets. */
  const SOCKET_FILE_DIR: string := "/dev/unix/socket/"
  /** Name of the daemon's input socket. */
  const INPUT_SOCKET_NAME: string := "hilogInput"
  /** Full path of the input socket, written out as a literal in the source. */
  const HILOG_SOCKET_PATH: string := "/dev/unix/socket/hilogInput"

  /** Maximum length of a log record, including the terminating '\0'. */
  const MAX_LOG_LEN: Usize := 4096
  /** Maximum tag size, including the terminating '\0'. */
  const MAX_TAG_LEN: Usize := 32

  /** The literal socket path is exactly the directory followed by the
      socket name (so its length is also the sum of theirs). */
  lemma SocketPathComposed()
    ensures HILOG_SOCKET_PATH == SOCKET_FILE_DIR + INPUT_SOCKET_NAME
  {
  }

  /** Rust's `usize`, taken as 64 bits wide. */
  type Usize = bv64

  /** Rust's `n as u16` on a `usize`: a value below 2^16 is unchanged;
      larger values wrap (`UsizeAsU16Truncates`). */
  function UsizeAsU16(n: Usize): (r: bv16)
    ensures n < 0x1_0000 ==> r as Usize == n
  {
    (n & 0xFFFF) as bv16
  }

  /** The cast keeps the low 16 bits of every `usize`: `n` is its bits from
      the 16th up followed by the result, so the result is `n` modulo 2^16. */
  lemma UsizeAsU16Truncates(n: Usize)
    ensures n == (n & 0xFFFF_FFFF_FFFF_0000) | (UsizeAsU16(n) as Usize)
  {
  }

  /** The integer inside the source's `LogType` and `LogLevel` wrappers.
      Their definitions are not part of this model; they are taken to be
      32-bit C enum codes. */
  type EnumCode = bv32

  /** Rust's `x as u16` on a 32-bit code: a value below 2^16 is unchanged;
      larger values wrap (`AsU16Truncates`). */
  function AsU16(x: EnumCode): (r: bv16)
    ensures x < 0x1_0000 ==> r as EnumCode == x
  {
    (x & 0xFFFF) as bv16
  }

  /** The cast keeps the low 16 bits of every code: `x` is its bits from the
      16th up followed by the result, so the result is `x` modulo 2^16. */
  lemma AsU16Truncates(x: EnumCode)
    ensures x == (x & 0xFFFF_0000) | (AsU16(x) as EnumCode)
  {
  }
}
