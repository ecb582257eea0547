/** Vocabulary shared by every component: pages, statuses and optional values. */
module Base {

  /** MINIMM_PAGE_SIZE */
  const PAGE_SIZE: nat := 4096

  /** UINT64_MAX and INT64_MAX */
  const UINT64_MAX: nat := 0xffff_ffff_ffff_ffff
  const INT64_MAX: nat := 0x7fff_ffff_ffff_ffff

  newtype Byte = b: int | 0 <= b < 256

  type Page = p: seq<Byte> | |p| == PAGE_SIZE witness ZeroBytes(PAGE_SIZE)

  function ZeroBytes(n: nat): (s: seq<Byte>)
    ensures |s| == n
  {
    seq(n, _ => 0)
  }

  const ZERO: Page := ZeroBytes(PAGE_SIZE)

  datatype Option<+T> = None | Some(value: T)

  /** minimm_status_t */
  datatype Status =
    | Ok | InvalidArgument | OutOfMemory | NoSpace | IoError | Busy
    | NotFound | Permission | AddressInUse | Unsupported

  /** The bytes of `data` laid over `page` from `offset` on. */
  function Splice(page: Page, offset: nat, data: seq<Byte>): (r: Page)
    requires offset + |data| <= PAGE_SIZE
    ensures forall i: nat :: i < PAGE_SIZE ==>
              r[i] == if offset <= i < offset + |data| then data[i - offset] else page[i]
  {
    page[..offset] + data + page[offset + |data|..]
  }
}
