/** The block descriptor stored in the list. Its fields (address, length) and
    its methods belong to the allocator and are not part of this model: the list
    only stores, returns and compares references, so an empty class suffices and
    `==` on `MemoryBlock?` is Java's reference comparison. */
module MemoryBlocks {

  class MemoryBlock {
  }
}
