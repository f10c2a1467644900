/** Physical memory, one cell per 4 KB page frame, addressed by frame number. */
module PhysMem {

  type byte = x: int | 0 <= x < 256

  /** A page-table word, unpacked: bits 0, 1, 2, 7 and 63, and the frame number in bits 12 to 51. */
  datatype Entry = Entry(present: bool, writable: bool, user: bool, huge: bool, noExec: bool, frame: nat)

  /** The permission bits of an entry. */
  datatype Flags = Flags(writable: bool, user: bool, noExec: bool)

  /**
   * What a frame holds: the link word of a free block, a 512-entry page table, 4096 bytes of data,
   * or contents that nothing has written yet.
   */
  datatype Cell =
    | Raw
    | Link(next: nat)
    | Table(entries: seq<Entry>)
    | Bytes(data: seq<byte>)

  type Mem = map<nat, Cell>

  function At(m: Mem, f: nat): Cell {
    if f in m then m[f] else Raw
  }

  /** `m` and `n` agree on every frame outside `s`. */
  ghost predicate SameExcept(m: Mem, n: Mem, s: set<nat>) {
    forall f: nat :: f !in s ==> At(n, f) == At(m, f)
  }

  /** The memory itself, shared by the allocator and by every page table. */
  class Memory {
    var cells: Mem

    constructor ()
      ensures cells == map[]
    {
      cells := map[];
    }
  }
}
