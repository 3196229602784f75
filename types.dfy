// Value types shared by the sorter: the element type and the run descriptor.

module Types {
  /** A signed 32-bit integer (int32_t), the element type of the array being sorted. */
  newtype int32 = x: int | -0x8000_0000 <= x < 0x8000_0000

  /** A run descriptor (run_t): the half-open window [start, start + len) of the array. */
  datatype Run = Run(start: nat, len: nat)
  {
    /** One past the last index of the window. */
    function End(): nat { start + len }
  }

  /** The descriptor that replaces two adjacent runs once they are merged:
    * it keeps the first run's start and adds the two lengths. */
  function Join(first: Run, second: Run): Run
  {
    Run(first.start, first.len + second.len)
  }
}
