/** The memory a program believes it has: one page of bytes per page number, no frames and no disk. */
module FlatMemory {
  import opened Common
  import opened KernelMemory

  /** The program's pages with their contents; a `blank` page is a new stack page whose contents are
      arbitrary until the first store to it. */
  datatype FlatMemory = FlatMemory(pages: map<nat, Page>, blank: set<nat>)

  /** A page that the program does not have yet joins as a blank page when it is first touched. */
  ghost predicate Touched(m: FlatMemory, page: nat, m': FlatMemory) {
    if page in m.pages then m' == m
    else page in m'.pages && m' == FlatMemory(m.pages[page := m'.pages[page]], m.blank + {page})
  }

  /** A load returns the byte of the page, unless the page is blank. */
  ghost predicate FlatLoad(m: FlatMemory, page: nat, offset: nat, value: bv8, m': FlatMemory) {
    && offset < PAGE_SIZE && Touched(m, page, m')
    && (page !in m'.blank ==> value == m'.pages[page][offset])
  }

  /** A store changes one byte of one page; the other bytes of a blank page become fixed. */
  ghost predicate FlatStore(m: FlatMemory, page: nat, offset: nat, value: bv8, m': FlatMemory) {
    && offset < PAGE_SIZE && page in m'.pages
    && m' == FlatMemory(m.pages[page := m'.pages[page]], m.blank - {page})
    && m'.pages[page][offset] == value
    && (page in m.pages && page !in m.blank ==> m'.pages[page] == m.pages[page][offset := value])
  }

  datatype Op = Load(page: nat, offset: nat) | Store(page: nat, offset: nat, value: bv8) | Other

  ghost predicate FlatStep(m: FlatMemory, op: Op, value: bv8, m': FlatMemory) {
    match op
    case Load(page, offset) => FlatLoad(m, page, offset, value, m')
    case Store(page, offset, v) => FlatStore(m, page, offset, v, m')
    case Other => m' == m
  }

  /** The memory without the pages that the kernel has lost. */
  function Forget(m: FlatMemory, lost: set<nat>): FlatMemory {
    FlatMemory(m.pages - lost, m.blank - lost)
  }

  lemma ForgetNothing(m: FlatMemory)
    ensures Forget(m, {}) == m
  {
  }
}
