/** Splitting an address into a page number and an offset.  Both are defined by counting pages, which keeps
  later proofs linear; PageIsQuotient says that they are the quotient and the remainder. */
module Paging {

  function PageNr(a: nat, size: nat): nat
    requires size > 0
  {
    if a < size then 0 else 1 + PageNr(a - size, size)
  }

  function PageOffset(a: nat, size: nat): (r: nat)
    requires size > 0
    ensures r < size
  {
    if a < size then a else PageOffset(a - size, size)
  }

  lemma {:induction false} PageIsQuotient(a: nat, size: nat)
    requires size > 0
    ensures PageNr(a, size) == a / size && PageOffset(a, size) == a % size
  {
    if a >= size {
      PageIsQuotient(a - size, size);
      assert (a - size) / size == a / size - 1 && (a - size) % size == a % size by {
        assert a == a / size * size + a % size;
        assert a - size == (a / size - 1) * size + a % size;
        SplitIs(a - size, size, a / size - 1, a % size);
      }
    } else {
      SplitIs(a, size, 0, a);
    }
  }

  lemma SplitIs(a: nat, size: nat, q: int, r: nat)
    requires size > 0 && r < size && a == q * size + r
    ensures a / size == q && a % size == r
  {
    var q' := a / size;
    assert a == q' * size + a % size;
    assert (q' + 1) * size == q' * size + size;
    assert (q + 1) * size == q * size + size;
    if q' < q {
      MulMonotonic(q' + 1, q, size);
    } else if q < q' {
      MulMonotonic(q + 1, q', size);
    }
  }

  lemma MulMonotonic(a: int, b: int, size: nat)
    requires a <= b
    ensures a * size <= b * size
  {
  }

  lemma {:induction false} SplitUnique(a: nat, b: nat, size: nat)
    requires size > 0 && PageNr(a, size) == PageNr(b, size) && PageOffset(a, size) == PageOffset(b, size)
    ensures a == b
  {
    if a >= size && b >= size {
      SplitUnique(a - size, b - size, size);
    }
  }

  /** Moving on by k stays in the page or enters the next one. */
  lemma {:induction false} SplitPlus(a: nat, k: nat, size: nat)
    requires size > 0 && k <= size
    ensures if PageOffset(a, size) + k < size then
        PageNr(a + k, size) == PageNr(a, size) && PageOffset(a + k, size) == PageOffset(a, size) + k
      else
        PageNr(a + k, size) == PageNr(a, size) + 1 && PageOffset(a + k, size) == PageOffset(a, size) + k - size
  {
    if a >= size {
      SplitPlus(a - size, k, size);
    }
  }

  lemma {:induction false} PageMonotonic(a: nat, b: nat, size: nat)
    requires size > 0 && a <= b
    ensures PageNr(a, size) <= PageNr(b, size)
  {
    if a >= size {
      PageMonotonic(a - size, b - size, size);
    }
  }

  function Min(a: nat, b: nat): nat {
    if a < b then a else b
  }

  /** The first address of a page. */
  lemma {:induction false} PageStart(a: nat, size: nat)
    requires size > 0
    ensures PageOffset(a, size) <= a
    ensures PageNr(a - PageOffset(a, size), size) == PageNr(a, size) && PageOffset(a - PageOffset(a, size), size) == 0
  {
    if a >= size { PageStart(a - size, size); }
  }

  /** page_count: the number of pages it takes to hold total bytes. */
  function PageCount(total: nat, size: nat): nat
    requires size > 0
  {
    PageNr(total + size - 1, size)
  }

  /** An address below total lies in a page below the page count. */
  lemma PageBelowCount(a: nat, total: nat, size: nat)
    requires size > 0 && a < total
    ensures PageNr(a, size) < PageCount(total, size) <= PageNr(total, size) + 1
  {
    PageMonotonic(a + size, total + size - 1, size);
    PageMonotonic(total + size - 1, total + size, size);
  }
}

/** The paged store (src/common/util/sparse_array.h) and the memory on top of it (src/components/scc/memory.h). */
module Memories {
  import opened Words
  import opened Options
  import opened RangeTables
  import opened Paging

  class SparseArray {
    const SIZE: nat
    const pageSize: nat
    var arr: seq<array?<Byte>>

    ghost predicate Valid()
      reads this
    {
      && SIZE > 0 && pageSize > 0 && |arr| == PageNr(SIZE, pageSize) + 1
      && (forall i :: 0 <= i < |arr| && arr[i] != null ==> arr[i].Length == pageSize)
      && (forall i, j :: 0 <= i < j < |arr| && arr[i] != null ==> arr[i] != arr[j])
    }

    lemma SamePage(i: nat, j: nat)
      requires Valid() && i < |arr| && j < |arr| && arr[i] != null && arr[i] == arr[j]
      ensures i == j
    {
    }

    constructor (size: nat, pageSize: nat)
      requires size > 0 && pageSize > 0
      ensures Valid() && SIZE == size && this.pageSize == pageSize
      ensures forall i :: 0 <= i < |arr| ==> arr[i] == null
    {
      SIZE, this.pageSize := size, pageSize;
      arr := seq(PageNr(size, pageSize) + 1, i => null);
    }

    /** The page fetch operator: a page is allocated, zero-filled, on first use. */
    method Page(nr: nat) returns (p: array<Byte>)
      requires Valid() && nr < PageCount(SIZE, pageSize) <= |arr|
      modifies this
      ensures Valid() && arr[nr] == p
      ensures arr == old(arr)[nr := p]
      ensures old(arr[nr]) != null ==> p == old(arr[nr])
      ensures old(arr[nr]) == null ==> fresh(p) && forall k :: 0 <= k < pageSize ==> p[k] == 0
    {
      if arr[nr] == null {
        var page := new Byte[pageSize](_ => 0);
        arr := arr[nr := page];
      }
      p := arr[nr];
    }

    predicate IsAllocated(addr: nat)
      requires Valid() && addr < SIZE
      reads this
    {
      PageBelowCount(addr, SIZE, pageSize);
      arr[PageNr(addr, pageSize)] != null
    }
  }

  // ---------------------------------------------------------------------------
  // The generic payload

  datatype Command = Read | Write | Ignore
  datatype Response = Incomplete | Okay | AddressError | GenericError

  class Payload {
    var command: Command
    var address: Word64
    var data: array<Byte>
    var length: nat
    var byteEnable: Option<seq<bv8>>
    var streamingWidth: nat
    var status: Response
    var dmiAllowed: bool

    constructor (command: Command, address: Word64, data: array<Byte>, length: nat)
      ensures this.command == command && this.address == address && this.data == data && this.length == length
      ensures byteEnable == None && streamingWidth == length && status == Incomplete && !dmiAllowed
    {
      this.command, this.address, this.data, this.length := command, address, data, length;
      byteEnable, streamingWidth := None, length;
      status, dmiAllowed := Incomplete, false;
    }

    ghost predicate WellFormed()
      reads `data, `length, `byteEnable
    {
      length <= data.Length && CoversLength(byteEnable, length)
    }
  }

  type ByteEnables = Option<seq<bv8>>

  predicate CoversLength(byt: ByteEnables, len: nat) {
    byt.Some? ==> len <= |byt.value|
  }

  /** Whether the k-th byte of the data takes part in a write. */
  predicate Enabled(byt: ByteEnables, k: nat)
    requires CoversLength(byt, k + 1)
  {
    byt.None? || byt.value[k] == 0xff
  }

  /** The data with its enabled bytes laid over a flat memory; data[0] is governed by the byte enable at position
    from. */
  function OverlayPart(flat: seq<Byte>, adr: nat, data: seq<Byte>, byt: ByteEnables, from: nat): (r: seq<Byte>)
    requires CoversLength(byt, from + |data|)
    ensures |r| == |flat|
    ensures forall a :: 0 <= a < |flat| ==>
      r[a] == if adr <= a < adr + |data| && Enabled(byt, from + a - adr) then data[a - adr] else flat[a]
  {
    seq(|flat|, a requires 0 <= a < |flat| =>
      if adr <= a < adr + |data| && Enabled(byt, from + a - adr) then data[a - adr] else flat[a])
  }

  function Overlay(flat: seq<Byte>, adr: nat, data: seq<Byte>, byt: ByteEnables): (r: seq<Byte>)
    requires CoversLength(byt, |data|)
  {
    OverlayPart(flat, adr, data, byt, 0)
  }

  lemma OverlaySplit(flat: seq<Byte>, adr: nat, data: seq<Byte>, byt: ByteEnables, n: nat)
    requires CoversLength(byt, |data|) && n <= |data|
    ensures Overlay(flat, adr, data, byt)
      == OverlayPart(OverlayPart(flat, adr, data[..n], byt, 0), adr + n, data[n..], byt, n)
  {
  }

  /** A write changes exactly its enabled bytes; nothing else changes any. */
  function FlatAfter(flat: seq<Byte>, command: Command, adr: nat, data: seq<Byte>, byt: ByteEnables): seq<Byte>
    requires CoversLength(byt, |data|)
  {
    if command == Write then Overlay(flat, adr, data, byt) else flat
  }

  /** A read fills its buffer with the stored bytes, or with noise when its first byte is not stored yet. */
  function DataAfter(flat: seq<Byte>, backed: bool, command: Command, adr: nat, data: seq<Byte>,
                     noise: seq<Byte>): seq<Byte>
    requires adr + |data| <= |flat| && |data| <= |noise|
  {
    if command != Read then data
    else if backed then flat[adr..adr + |data|]
    else noise[..|data|]
  }

  datatype DmiAccess = DmiNone | DmiReadWrite

  /** tlm_dmi: the window start..end is backed by the bytes from ptr on. */
  datatype Dmi = Dmi(ptr: array?<Byte>, start: Word64, end: Word64, access: DmiAccess)

  datatype HostMapEntry = HostMapEntry(ptr: array?<Byte>, base: nat, size: nat)

  /** Entries compare by base and size alone. */
  predicate SameHost(a: HostMapEntry, b: HostMapEntry) {
    a.base == b.base && a.size == b.size
  }

  const NullHost := HostMapEntry(null, 0, 0)

  /** A byte of storage. */
  datatype Cell = Cell(buf: array<Byte>, off: int)

  /** The cell of an address in its page, if that has been allocated. */
  function PageCellIn(arr: seq<array?<Byte>>, pageSize: nat, a: nat): Option<Cell>
    requires pageSize > 0
  {
    var nr := PageNr(a, pageSize);
    if nr < |arr| && arr[nr] != null then Some(Cell(arr[nr], PageOffset(a, pageSize))) else None
  }

  /** Host ranges take precedence over pages. */
  ghost function CellIn(hosts: set<Range<HostMapEntry>>, arr: seq<array?<Byte>>, pageSize: nat, a: nat): Option<Cell>
    requires pageSize > 0
  {
    match FindRange(hosts, a)
    case Some(r) => if r.index.ptr != null then Some(Cell(r.index.ptr, a - r.first)) else None
    case None => PageCellIn(arr, pageSize, a)
  }

  /** Every address of the window is stored where the window's pointer says. */
  ghost predicate WindowIn(hosts: set<Range<HostMapEntry>>, arr: seq<array?<Byte>>, pageSize: nat, size: nat, d: Dmi)
    requires pageSize > 0
  {
    && d.ptr != null && d.start <= d.end < size
    && forall a :: d.start <= a <= d.end ==> CellIn(hosts, arr, pageSize, a) == Some(Cell(d.ptr, a - d.start))
  }

  /** Allocated pages stay where they are. */
  predicate KeepsPages(before: seq<array?<Byte>>, after: seq<array?<Byte>>) {
    |after| == |before| && forall i :: 0 <= i < |after| && before[i] != null ==> after[i] == before[i]
  }

  lemma KeptCell(hosts: set<Range<HostMapEntry>>, before: seq<array?<Byte>>, after: seq<array?<Byte>>, pageSize: nat,
                 a: nat)
    requires pageSize > 0 && KeepsPages(before, after) && CellIn(hosts, before, pageSize, a).Some?
    ensures CellIn(hosts, after, pageSize, a) == CellIn(hosts, before, pageSize, a)
  {
  }

  type Positive = n: nat | n > 0 witness 1

  /** What there is to see of a memory: its page size, its host ranges, its pages, and the flat memory that they
    amount to. */
  datatype View = View(pageSize: Positive, hosts: set<Range<HostMapEntry>>, arr: seq<array?<Byte>>, flat: seq<Byte>)
  {
    ghost function CellOf(a: nat): Option<Cell>
    {
      CellIn(hosts, arr, pageSize, a)
    }

    ghost predicate CanServe(adr: Word64, len: nat) {
      Serves(hosts, pageSize, |flat|, adr, len)
    }

    ghost predicate Reaches(adr: Word64, len: nat) {
      adr < |flat| && adr + len <= |flat|
    }

    ghost predicate Faithful(d: Dmi)
    {
      WindowIn(hosts, arr, pageSize, |flat|, d)
    }

    /** The window that handle_dmi grants for an address. */
    ghost predicate Grants(adr: Word64, d: Dmi)
    {
      d.access == DmiReadWrite && d.ptr != null && d.start <= adr <= d.end &&
      match FindRange(hosts, adr)
      case Some(r) => d.ptr == r.index.ptr && d.start == r.first && d.end == r.last
      case None =>
        && PageNr(adr, pageSize) < |arr| && arr[PageNr(adr, pageSize)] == d.ptr
        && d.start == adr - PageOffset(adr, pageSize) && d.end + 1 == Min(d.start + pageSize, |flat|)
    }

    /** The first and last address of the window granted for an address. */
    ghost function Bounds(adr: Word64): (int, int) {
      match FindRange(hosts, adr)
      case Some(r) => (r.first, r.last)
      case None => (adr - PageOffset(adr, pageSize), Min(adr - PageOffset(adr, pageSize) + pageSize, |flat|) - 1)
    }

    /** The same memory, with its allocated pages in place. */
    ghost predicate Keeps(w: View) {
      w.pageSize == pageSize && w.hosts == hosts && KeepsPages(arr, w.arr) && |w.flat| == |flat|
    }

    /** An access takes this memory to w, and the caller's bytes from before to after. */
    ghost predicate Performs(w: View, command: Command, adr: Word64, byt: ByteEnables, before: seq<Byte>,
                             after: seq<Byte>, noise: seq<Byte>)
      requires Reaches(adr, |before|) && |before| <= |noise| && CoversLength(byt, |before|)
    {
      && Keeps(w)
      && w.flat == FlatAfter(flat, command, adr, before, byt)
      && after == DataAfter(flat, CellOf(adr).Some?, command, adr, before, noise)
      && (command == Write ==> forall a :: adr <= a < adr + |before| ==> w.CellOf(a).Some?)
    }
  }

  /** Where a byte is stored, in numbers: in the host buffer of a range that has its address, counted from the start of
    the range; otherwise at its place in the page of its number, once that is allocated. */
  lemma CellIs(v: View, a: nat)
    requires Disjoint(v.hosts) && forall r :: r in v.hosts ==> r.index.ptr != null
    ensures forall r :: r in v.hosts && r.first <= a <= r.last ==> v.CellOf(a) == Some(Cell(r.index.ptr, a - r.first))
    ensures (forall r :: r in v.hosts ==> a < r.first || r.last < a) ==>
      var nr := a / v.pageSize;
      v.CellOf(a) == if nr < |v.arr| && v.arr[nr] != null then Some(Cell(v.arr[nr], a % v.pageSize)) else None
  {
    PageIsQuotient(a, v.pageSize);
    forall r | r in v.hosts && r.first <= a <= r.last ensures FindRange(v.hosts, a) == Some(r) {
      assert FindRange(v.hosts, a).value != r ==> !Touches(FindRange(v.hosts, a).value, r);
    }
  }

  /** The window granted for an address, in numbers: the host range that has it, or its page, as far as the memory
    goes. */
  lemma GrantIs(v: View, adr: Word64, d: Dmi)
    requires Disjoint(v.hosts) && adr < |v.flat| < TWO64
    ensures forall r :: r in v.hosts && r.first <= adr <= r.last ==>
      (v.Grants(adr, d) <==>
       d.access == DmiReadWrite && d.ptr != null && d.ptr == r.index.ptr && d.start == r.first && d.end == r.last)
    ensures (forall r :: r in v.hosts ==> adr < r.first || r.last < adr) ==>
      var nr, offs := adr / v.pageSize, adr % v.pageSize;
      v.Grants(adr, d) <==>
      && d.access == DmiReadWrite && nr < |v.arr| && d.ptr == v.arr[nr] && d.ptr != null && d.start == adr - offs
      && d.end == (if adr - offs + v.pageSize < |v.flat| then adr - offs + v.pageSize else |v.flat|) - 1
  {
    PageIsQuotient(adr, v.pageSize);
    PageStart(adr, v.pageSize);
    forall r | r in v.hosts && r.first <= adr <= r.last ensures FindRange(v.hosts, adr) == Some(r) {
      assert FindRange(v.hosts, adr).value != r ==> !Touches(FindRange(v.hosts, adr).value, r);
    }
  }

  /** The memory w has one more host range than v, with storage of its own. */
  ghost predicate Gains(v: View, w: View, r: Range<HostMapEntry>) {
    && w.pageSize == v.pageSize && w.arr == v.arr && |w.flat| == |v.flat|
    && r !in v.hosts && w.hosts == v.hosts + {r} && r.first <= r.last && r.index.ptr != null && r.index.ptr !in v.arr
    && forall q :: q in v.hosts ==> !Touches(q, r) && q.index.ptr != r.index.ptr
  }

  /** Outside of the range nothing changes: neither where bytes are stored nor the windows granted for them. */
  lemma GainedElsewhere(v: View, w: View, r: Range<HostMapEntry>, a: Word64)
    requires Gains(v, w, r) && Disjoint(v.hosts) && !(r.first <= a <= r.last)
    ensures FindRange(w.hosts, a) == FindRange(v.hosts, a)
    ensures w.CellOf(a) == v.CellOf(a) && w.Bounds(a) == v.Bounds(a)
  {
    var p, q := FindRange(v.hosts, a), FindRange(w.hosts, a);
    if p.Some? && q.Some? { assert p.value != q.value ==> !Touches(p.value, q.value); }
  }

  /** Inside, bytes are stored in the host buffer, and were not before. */
  lemma GainedHere(v: View, w: View, r: Range<HostMapEntry>, a: nat)
    requires Gains(v, w, r) && r.first <= a <= r.last
    ensures w.CellOf(a) == Some(Cell(r.index.ptr, a - r.first))
    ensures v.CellOf(a).Some? ==> v.CellOf(a).value.buf != r.index.ptr
  {
    var q := FindRange(w.hosts, a);
    assert q.Some? && q.value != r ==> !Touches(q.value, r);
  }

  /** What an access does to a memory, of which pages is what its pages hold: one that starts in a host range works on
    the flat memory; one that starts on a page works on the pages, whatever host ranges it runs into. */
  ghost predicate Acts(v: View, w: View, pages: seq<Byte>, pages': seq<Byte>, command: Command, adr: Word64,
                       byt: ByteEnables, before: seq<Byte>, after: seq<Byte>, noise: seq<Byte>)
    requires v.Reaches(adr, |before|) && |before| <= |noise| && CoversLength(byt, |before|) && |pages| == |v.flat|
  {
    var host := FindRange(v.hosts, adr).Some?;
    && v.Keeps(w) && (command == Write ==> forall a :: adr <= a < adr + |before| ==> w.CellOf(a).Some?)
    && after == DataAfter(if host then v.flat else pages, v.CellOf(adr).Some?, command, adr, before, noise)
    && (host ==> w.flat == FlatAfter(v.flat, command, adr, before, byt))
    && (!host ==> pages' == FlatAfter(pages, command, adr, before, byt))
    && (!host ==> w.flat == if command == Write then Around(v.flat, v.hosts, adr, before, byt, 0) else v.flat)
  }

  /** An access that runs into no host range is one to the flat memory. */
  lemma ActsIsPerforms(v: View, w: View, pages: seq<Byte>, pages': seq<Byte>, command: Command, adr: Word64,
                       byt: ByteEnables, before: seq<Byte>, after: seq<Byte>, noise: seq<Byte>)
    requires v.Reaches(adr, |before|) && |before| <= |noise| && CoversLength(byt, |before|) && |pages| == |v.flat|
    requires Acts(v, w, pages, pages', command, adr, byt, before, after, noise) && UniformIn(v.hosts, adr, |before|)
    requires FindRange(v.hosts, adr).None? ==> pages[adr..adr + |before|] == v.flat[adr..adr + |before|]
    ensures v.Performs(w, command, adr, byt, before, after, noise)
  {
    hide Around, CellIn;
    if FindRange(v.hosts, adr).None? { AroundNoHost(v.flat, v.hosts, adr, before, byt); }
  }

  /** An access byte by byte.  A write stores the bytes whose byte enable is 0xff, or all of them if there are none; it
    works on what a host shows if it starts there, and on the pages if not, and those show where no host is. */
  lemma ActsBytewise(v: View, w: View, pages: seq<Byte>, pages': seq<Byte>, command: Command, adr: Word64,
                     byt: ByteEnables, before: seq<Byte>, after: seq<Byte>, noise: seq<Byte>)
    requires v.Reaches(adr, |before|) && |before| <= |noise| && CoversLength(byt, |before|) && |pages| == |v.flat|
    requires Acts(v, w, pages, pages', command, adr, byt, before, after, noise)
    ensures |w.flat| == |v.flat| && |after| == |before|
    ensures forall a :: 0 <= a < |v.flat| ==>
      w.flat[a] ==
      if command == Write && adr <= a < adr + |before| && (byt.None? || byt.value[a - adr] == 0xff)
          && (FindRange(v.hosts, adr).Some? || FindRange(v.hosts, a).None?)
      then before[a - adr] else v.flat[a]
    ensures FindRange(v.hosts, adr).None? ==>
      |pages'| == |pages| && forall a :: 0 <= a < |pages| ==>
        pages'[a] ==
        if command == Write && adr <= a < adr + |before| && (byt.None? || byt.value[a - adr] == 0xff)
        then before[a - adr] else pages[a]
    ensures forall k :: 0 <= k < |before| ==>
      after[k] ==
      if command != Read then before[k]
      else if v.CellOf(adr).None? then noise[k]
      else if FindRange(v.hosts, adr).Some? then v.flat[adr + k] else pages[adr + k]
  {
    hide CellIn, FindRange;
  }

  /** The same for an access to the flat memory. */
  lemma PerformsBytewise(v: View, w: View, command: Command, adr: Word64, byt: ByteEnables, before: seq<Byte>,
                         after: seq<Byte>, noise: seq<Byte>)
    requires v.Reaches(adr, |before|) && |before| <= |noise| && CoversLength(byt, |before|)
    requires v.Performs(w, command, adr, byt, before, after, noise)
    ensures |w.flat| == |v.flat| && |after| == |before|
    ensures forall a :: 0 <= a < |v.flat| ==>
      w.flat[a] ==
      if command == Write && adr <= a < adr + |before| && (byt.None? || byt.value[a - adr] == 0xff)
      then before[a - adr] else v.flat[a]
    ensures forall k :: 0 <= k < |before| ==>
      after[k] ==
      if command != Read then before[k] else if v.CellOf(adr).None? then noise[k] else v.flat[adr + k]
  {
    hide CellIn, FindRange;
  }

  ghost predicate NoHostIn(hosts: set<Range<HostMapEntry>>, adr: nat, len: nat) {
    forall r :: r in hosts ==> r.last < adr || adr + len <= r.first
  }

  /** An access lies inside one host range, or meets none. */
  ghost predicate UniformIn(hosts: set<Range<HostMapEntry>>, adr: nat, len: nat) {
    match FindRange(hosts, adr)
    case Some(r) => adr + len <= r.last + 1
    case None => NoHostIn(hosts, adr, len)
  }

  /** The range test that every access starts with. */
  predicate Admits(size: nat, adr: Word64, len: Word64) {
    Add64(adr, len) <= size
  }

  /** The test is right but for accesses that wrap around the address space, to an address inside the memory. */
  lemma AdmitsOutside(size: nat, adr: Word64, len: Word64)
    requires size < TWO64
    ensures Admits(size, adr, len) && !(adr + len <= size) <==> adr + len >= TWO64 && adr + len - TWO64 <= size
    ensures adr + len <= size ==> Admits(size, adr, len)
  {
  }

  /** The access takes its bytes from one page, or from two in a row. */
  predicate FitsPages(pageSize: nat, adr: nat, len: nat)
    requires pageSize > 0
  {
    PageOffset(adr, pageSize) + len <= 2 * pageSize
  }

  /** What an access that passes the range test must keep to: it does not wrap around, and ends within the host range
    that it starts in or, starting in none, within the second page. */
  ghost predicate Handles(hosts: set<Range<HostMapEntry>>, pageSize: nat, size: nat, adr: Word64, len: nat)
    requires pageSize > 0
  {
    len < TWO64 &&
    (Admits(size, adr, len) ==>
      && adr + len < TWO64 && adr < size
      && match FindRange(hosts, adr) case Some(r) => adr + len <= r.last + 1 case None => FitsPages(pageSize, adr, len))
  }

  /** And what it must keep to so that it is an access to the flat memory: it does not run into a host range. */
  ghost predicate Serves(hosts: set<Range<HostMapEntry>>, pageSize: nat, size: nat, adr: Word64, len: nat)
    requires pageSize > 0
  {
    Handles(hosts, pageSize, size, adr, len) && (Admits(size, adr, len) ==> UniformIn(hosts, adr, len))
  }

  /** The data laid over a flat memory where it shows: what goes to the page beneath a host range does not. */
  ghost function Around(flat: seq<Byte>, hosts: set<Range<HostMapEntry>>, adr: nat, data: seq<Byte>, byt: ByteEnables,
                        from: nat): (r: seq<Byte>)
    requires CoversLength(byt, from + |data|)
    ensures |r| == |flat|
    ensures forall a :: 0 <= a < |flat| ==>
      r[a] == if adr <= a < adr + |data| && Enabled(byt, from + a - adr) && FindRange(hosts, a).None? then data[a - adr]
              else flat[a]
  {
    seq(|flat|, a requires 0 <= a < |flat| =>
      if adr <= a < adr + |data| && Enabled(byt, from + a - adr) && FindRange(hosts, a).None? then data[a - adr]
      else flat[a])
  }

  /** A write that starts on a page and runs into a host range is the write to the flat memory exactly if what stays out
    of sight is what the host shows anyway. */
  lemma AroundIsOverlay(flat: seq<Byte>, hosts: set<Range<HostMapEntry>>, adr: nat, data: seq<Byte>, byt: ByteEnables)
    requires CoversLength(byt, |data|) && adr + |data| <= |flat|
    ensures Around(flat, hosts, adr, data, byt, 0) == Overlay(flat, adr, data, byt) <==>
      forall a :: adr <= a < adr + |data| && FindRange(hosts, a).Some? && Enabled(byt, a - adr) ==>
        data[a - adr] == flat[a]
  {
    var r, o := Around(flat, hosts, adr, data, byt, 0), Overlay(flat, adr, data, byt);
    if r == o {
      forall a | adr <= a < adr + |data| && FindRange(hosts, a).Some? && Enabled(byt, a - adr)
        ensures data[a - adr] == flat[a]
      {
        assert r[a] == o[a];
      }
    }
  }

  /** So it is one for all data exactly if it meets no host range. */
  lemma AlwaysOverlay(flat: seq<Byte>, hosts: set<Range<HostMapEntry>>, adr: nat, n: nat)
    requires adr + n <= |flat| && forall r :: r in hosts ==> r.first <= r.last
    ensures (forall data: seq<Byte> :: |data| == n ==>
      Around(flat, hosts, adr, data, None, 0) == Overlay(flat, adr, data, None)) <==> n == 0 || NoHostIn(hosts, adr, n)
  {
    hide Around, Overlay;
    if n > 0 && !NoHostIn(hosts, adr, n) {
      var r :| r in hosts && adr <= r.last && r.first < adr + n;
      var a := if r.first < adr then adr else r.first;
      var other: Byte := if flat[a] == 0 then 1 else 0;
      var data: seq<Byte> := seq(n, k => other);
      AroundIsOverlay(flat, hosts, adr, data, None);
      assert FindRange(hosts, a).Some? && data[a - adr] != flat[a];
    } else {
      forall data: seq<Byte> | |data| == n
        ensures Around(flat, hosts, adr, data, None, 0) == Overlay(flat, adr, data, None)
      {
        AroundIsOverlay(flat, hosts, adr, data, None);
      }
    }
  }

  lemma AroundNoHost(flat: seq<Byte>, hosts: set<Range<HostMapEntry>>, adr: nat, data: seq<Byte>, byt: ByteEnables)
    requires CoversLength(byt, |data|) && adr + |data| <= |flat| && NoHostIn(hosts, adr, |data|)
    ensures Around(flat, hosts, adr, data, byt, 0) == Overlay(flat, adr, data, byt)
  {
    AroundIsOverlay(flat, hosts, adr, data, byt);
  }

  lemma AroundSplit(flat: seq<Byte>, hosts: set<Range<HostMapEntry>>, adr: nat, data: seq<Byte>, byt: ByteEnables,
                    n: nat)
    requires CoversLength(byt, |data|) && n <= |data|
    ensures Around(flat, hosts, adr, data, byt, 0)
      == Around(Around(flat, hosts, adr, data[..n], byt, 0), hosts, adr + n, data[n..], byt, n)
  {
  }

  // ---------------------------------------------------------------------------

  class Memory {
    const mem: SparseArray
    const hostMemLut: RangeLut<HostMapEntry>
    var allowDmi: bool
    ghost var hosts: set<Range<HostMapEntry>>
    ghost var buffers: set<array<Byte>>

    ghost predicate Valid()
      reads this, mem
    {
      && mem.Valid() && mem.SIZE < TWO64
      && (forall i :: 0 <= i < |mem.arr| && mem.arr[i] != null ==> mem.arr[i] in buffers)
      && HostsApart(hosts) && (forall r :: r in hosts ==> r.index.ptr in buffers)
    }

    /** The lookup table holds exactly the mapped host ranges. */
    ghost predicate HostTable()
      reads this, hostMemLut
    {
      && hostMemLut.nullEntry == NullHost && hostMemLut.same == SameHost
      && Tracks(State(hostMemLut.lut, hostMemLut.count), hosts, NullHost, SameHost)
    }

    /** Looking an address up finds its host range. */
    ghost predicate Mapped()
      reads `hosts, hostMemLut
    {
      forall a: Word64 {:trigger hostMemLut.GetEntry(a)} :: hostMemLut.GetEntry(a) == HostEntry(a)
    }

    static ghost predicate IsHost(r: Range<HostMapEntry>) {
      && r.first <= r.last && r.index.ptr != null && r.index.base == r.first && r.index.size == r.last - r.first + 1
      && r.index.size <= r.index.ptr.Length
    }

    constructor (size: nat, pageSize: nat, allowDmi: bool)
      requires 0 < size < TWO64 && pageSize > 0
      ensures Valid() && HostTable() && mem.SIZE == size && mem.pageSize == pageSize && this.allowDmi == allowDmi
      ensures hosts == {} && buffers == {} && fresh(mem) && fresh(hostMemLut)
      ensures forall i :: 0 <= i < |mem.arr| ==> mem.arr[i] == null
    {
      mem := new SparseArray(size, pageSize);
      hostMemLut := new RangeLut(NullHost, SameHost);
      this.allowDmi := allowDmi;
      hosts := {};
      buffers := {};
    }

    /** The host range at an address, or none. */
    ghost function HostOf(a: nat): Option<Range<HostMapEntry>>
      reads `hosts
    {
      FindRange(hosts, a)
    }

    ghost function HostEntry(a: nat): HostMapEntry
      reads `hosts
    {
      match HostOf(a) case None => NullHost case Some(r) => r.index
    }

    lemma TableIsMapped()
      requires HostTable()
      ensures Mapped()
    {
      forall a: Word64 ensures hostMemLut.GetEntry(a) == HostEntry(a) {
        LookupIsScan(hostMemLut.lut, hosts, NullHost, a);
      }
    }

    lemma OneHost(a: nat, r: Range<HostMapEntry>)
      requires Valid() && r in hosts && r.first <= a <= r.last
      ensures HostOf(a) == Some(r)
    {
      assert HostOf(a).value != r ==> !Touches(HostOf(a).value, r);
    }

    /** Where the byte at an address is stored, once it is. */
    ghost function CellOf(a: nat): Option<Cell>
      requires Valid() && a < mem.SIZE
      reads this, mem
    {
      CellIn(hosts, mem.arr, mem.pageSize, a)
    }

    ghost function PageCell(a: nat): Option<Cell>
      requires Valid() && a < mem.SIZE
      reads this, mem
    {
      PageCellIn(mem.arr, mem.pageSize, a)
    }

    lemma PageCellInBounds(a: nat)
      requires Valid() && a < mem.SIZE && PageCell(a).Some?
      ensures var c := PageCell(a).value; c.buf in mem.arr && c.buf in buffers && 0 <= c.off < c.buf.Length
    {
      PageBelowCount(a, mem.SIZE, mem.pageSize);
      assert mem.arr[PageNr(a, mem.pageSize)] in mem.arr;
    }

    lemma PageCellUnique(a: nat, b: nat)
      requires Valid() && a < mem.SIZE && b < mem.SIZE && PageCell(a).Some? && PageCell(a) == PageCell(b)
      ensures a == b
    {
      PageBelowCount(a, mem.SIZE, mem.pageSize);
      PageBelowCount(b, mem.SIZE, mem.pageSize);
      mem.SamePage(PageNr(a, mem.pageSize), PageNr(b, mem.pageSize));
      SplitUnique(a, b, mem.pageSize);
    }

    lemma CellInBounds(a: nat)
      requires Valid() && a < mem.SIZE
      ensures CellOf(a).Some? ==> var c := CellOf(a).value; c.buf in buffers && 0 <= c.off < c.buf.Length
    {
      if HostOf(a).None? && PageCell(a).Some? { PageCellInBounds(a); }
    }

    /** No two addresses share a byte of storage. */
    lemma CellInjective(a: nat, b: nat)
      requires Valid() && a < mem.SIZE && b < mem.SIZE && CellOf(a).Some? && CellOf(a) == CellOf(b)
      ensures a == b
    {
      if HostOf(a).None? {
        PageCellInBounds(a);
        if HostOf(b).None? { PageCellUnique(a, b); }
      } else if HostOf(b).None? {
        PageCellInBounds(b);
      }
    }

    /** The flat view: a byte that is not stored yet counts as zero. */
    ghost function ByteAt(a: nat): Byte
      requires Valid() && a < mem.SIZE
      reads this, mem, buffers
    {
      CellInBounds(a);
      match CellOf(a)
      case None => 0
      case Some(c) => c.buf[c.off]
    }

    /** The addresses adr.. adr + n are stored in a row, from buf[off] on. */
    ghost predicate Segment(adr: nat, n: nat, buf: array<Byte>, off: int)
      requires Valid() && adr + n <= mem.SIZE
      reads this, mem
    {
      && 0 <= off && off + n <= buf.Length && (n > 0 ==> buf in buffers)
      && forall a :: adr <= a < adr + n ==> CellOf(a) == Some(Cell(buf, off + a - adr))
    }

    /** std::copy */
    static method Copy(src: array<Byte>, from: nat, dst: array<Byte>, to: nat, n: nat)
      requires from + n <= src.Length && to + n <= dst.Length && src != dst
      modifies dst
      ensures forall k :: 0 <= k < dst.Length ==> dst[k] == if to <= k < to + n then src[from + k - to] else old(dst[k])
    {
      for i := 0 to n
        invariant forall k :: 0 <= k < dst.Length ==>
          dst[k] == if to <= k < to + i then src[from + k - to] else old(dst[k])
      {
        dst[to + i] := src[from + i];
      }
    }

    /** Pages stay where they are, and whatever is newly allocated is fresh. */
    twostate predicate Kept()
      reads this, mem
    {
      KeepsPages(old(mem.arr), mem.arr) && old(buffers) <= buffers && fresh(buffers - old(buffers))
    }

    ghost function FlatUpTo(n: nat): (f: seq<Byte>)
      requires Valid() && n <= mem.SIZE
      reads this, mem, buffers
      ensures |f| == n
    {
      if n == 0 then [] else FlatUpTo(n - 1) + [ByteAt(n - 1)]
    }

    /** The flat memory. */
    ghost function Flat(): (f: seq<Byte>)
      requires Valid()
      reads this, mem, buffers
      ensures |f| == mem.SIZE
    {
      FlatUpTo(mem.SIZE)
    }

    ghost function Snapshot(): View
      requires Valid()
      reads this, mem, buffers
    {
      View(mem.pageSize, hosts, mem.arr, Flat())
    }

    lemma {:induction false} FlatUpToAt(n: nat, a: nat)
      requires Valid() && a < n <= mem.SIZE
      ensures FlatUpTo(n)[a] == ByteAt(a)
    {
      if a < n - 1 { FlatUpToAt(n - 1, a); }
    }

    lemma FlatAt(a: nat)
      requires Valid() && a < mem.SIZE
      ensures Flat()[a] == ByteAt(a)
    {
      FlatUpToAt(mem.SIZE, a);
    }

    lemma FlatIs(f: seq<Byte>)
      requires Valid() && |f| == mem.SIZE && forall a :: 0 <= a < mem.SIZE ==> ByteAt(a) == f[a]
      ensures Flat() == f
    {
      forall a | 0 <= a < mem.SIZE ensures Flat()[a] == f[a] { FlatAt(a); }
    }

    lemma FlatBytes()
      requires Valid()
      ensures forall a :: 0 <= a < mem.SIZE ==> Flat()[a] == ByteAt(a)
    {
      forall a | 0 <= a < mem.SIZE ensures Flat()[a] == ByteAt(a) { FlatAt(a); }
    }

    /** What the pages hold, beneath host ranges as well; a page that is not allocated counts as zeroes. */
    ghost function PageByte(a: nat): Byte
      requires Valid() && a < mem.SIZE
      reads this, mem, buffers
    {
      if PageCell(a).Some? then PageCellInBounds(a); PageCell(a).value.buf[PageCell(a).value.off] else 0
    }

    ghost function PagesUpTo(n: nat): (f: seq<Byte>)
      requires Valid() && n <= mem.SIZE
      reads this, mem, buffers
      ensures |f| == n
    {
      if n == 0 then [] else PagesUpTo(n - 1) + [PageByte(n - 1)]
    }

    ghost function Pages(): (f: seq<Byte>)
      requires Valid()
      reads this, mem, buffers
      ensures |f| == mem.SIZE
    {
      PagesUpTo(mem.SIZE)
    }

    lemma {:induction false} PagesUpToAt(n: nat, a: nat)
      requires Valid() && a < n <= mem.SIZE
      ensures PagesUpTo(n)[a] == PageByte(a)
    {
      if a < n - 1 { PagesUpToAt(n - 1, a); }
    }

    lemma PagesAt(a: nat)
      requires Valid() && a < mem.SIZE
      ensures Pages()[a] == PageByte(a)
    {
      PagesUpToAt(mem.SIZE, a);
    }

    lemma PagesAre(f: seq<Byte>)
      requires Valid() && |f| == mem.SIZE && forall a :: 0 <= a < mem.SIZE ==> PageByte(a) == f[a]
      ensures Pages() == f
    {
      forall a | 0 <= a < mem.SIZE ensures Pages()[a] == f[a] { PagesAt(a); }
    }

    lemma PageBytes()
      requires Valid()
      ensures forall a :: 0 <= a < mem.SIZE ==> Pages()[a] == PageByte(a)
    {
      forall a | 0 <= a < mem.SIZE ensures Pages()[a] == PageByte(a) { PagesAt(a); }
    }

    lemma NothingAllocated()
      requires Valid() && forall i :: 0 <= i < |mem.arr| ==> mem.arr[i] == null
      ensures forall a :: 0 <= a < mem.SIZE ==> Pages()[a] == 0
    {
      PageBytes();
      forall a | 0 <= a < mem.SIZE ensures PageCell(a).None? {}
    }

    /** Where there is no host range the pages show. */
    lemma PageShows(a: nat)
      requires Valid() && a < mem.SIZE && HostOf(a).None?
      ensures Flat()[a] == Pages()[a]
    {
      FlatAt(a);
      PagesAt(a);
    }

    lemma PagesShow(adr: nat, len: nat)
      requires Valid() && adr + len <= mem.SIZE && NoHost(adr, len)
      ensures Pages()[adr..adr + len] == Flat()[adr..adr + len]
    {
      forall a | adr <= a < adr + len ensures Flat()[a] == Pages()[a] { PageShows(a); }
    }

    /** A read that starts on a page and runs into a host range returns the flat memory exactly if the page beneath
      holds what the host shows. */
    lemma ShadowedRead(adr: nat, len: nat)
      requires Valid() && adr + len <= mem.SIZE
      ensures Pages()[adr..adr + len] == Flat()[adr..adr + len] <==>
        forall a :: adr <= a < adr + len && HostOf(a).Some? ==> Pages()[a] == Flat()[a]
    {
      forall a | adr <= a < adr + len && HostOf(a).None? ensures Flat()[a] == Pages()[a] { PageShows(a); }
      var p, f := Pages()[adr..adr + len], Flat()[adr..adr + len];
      forall a | adr <= a < adr + len ensures p[a - adr] == Pages()[a] && f[a - adr] == Flat()[a] {}
    }

    /** Fetching a page may allocate it, which no byte shows. */
    method FetchPage(nr: nat) returns (p: array<Byte>)
      requires Valid() && nr < PageCount(mem.SIZE, mem.pageSize) <= |mem.arr|
      modifies this`buffers, mem
      ensures Valid() && Kept() && mem.arr[nr] == p && p in buffers
      ensures Flat() == old(Flat()) && Pages() == old(Pages())
      ensures forall i :: 0 <= i < |mem.arr| && i != nr ==> mem.arr[i] == old(mem.arr[i])
    {
      hide PageNr, PageOffset;
      ghost var flat, pages := Flat(), Pages();
      FlatBytes();
      PageBytes();
      p := mem.Page(nr);
      buffers := buffers + {p};
      forall a | 0 <= a < mem.SIZE ensures ByteAt(a) == flat[a] && PageByte(a) == pages[a] {
        PageBelowCount(a, mem.SIZE, mem.pageSize);
        CellInBounds(a);
      }
      FlatIs(flat);
      PagesAre(pages);
    }

    ghost predicate NoHost(adr: nat, len: nat)
      reads `hosts
    {
      NoHostIn(hosts, adr, len)
    }

    lemma HostSegment(adr: nat, len: nat, r: Range<HostMapEntry>)
      requires Valid() && adr + len <= mem.SIZE && HostOf(adr) == Some(r) && adr + len <= r.last + 1
      ensures r.index.ptr in buffers && Segment(adr, len, r.index.ptr, adr - r.first)
    {
      forall a | adr <= a < adr + len ensures CellOf(a) == Some(Cell(r.index.ptr, a - r.first)) {
        OneHost(a, r);
      }
    }

    /** The addresses adr.. adr + n are stored in a row in a page, from buf[off] on. */
    ghost predicate PageSegment(adr: nat, n: nat, buf: array<Byte>, off: int)
      requires Valid() && adr + n <= mem.SIZE
      reads this, mem
    {
      && 0 <= off && off + n <= buf.Length && buf in buffers && buf in mem.arr
      && forall a :: adr <= a < adr + n ==> PageCell(a) == Some(Cell(buf, off + a - adr))
    }

    /** The part of a page from adr on. */
    lemma InPage(adr: nat, len: nat, p: array<Byte>)
      requires Valid() && adr < mem.SIZE && adr + len <= mem.SIZE && PageOffset(adr, mem.pageSize) + len <= mem.pageSize
      requires PageNr(adr, mem.pageSize) < |mem.arr| && mem.arr[PageNr(adr, mem.pageSize)] == p
      ensures PageSegment(adr, len, p, PageOffset(adr, mem.pageSize))
    {
      assert p in mem.arr;
      forall a | adr <= a < adr + len ensures PageCell(a) == Some(Cell(p, PageOffset(adr, mem.pageSize) + a - adr)) {
        SplitPlus(adr, a - adr, mem.pageSize);
      }
    }

    /** Away from host ranges it is where the flat memory is stored. */
    lemma BarePage(adr: nat, len: nat, p: array<Byte>)
      requires Valid() && adr < mem.SIZE && adr + len <= mem.SIZE && PageOffset(adr, mem.pageSize) + len <= mem.pageSize
      requires PageNr(adr, mem.pageSize) < |mem.arr| && mem.arr[PageNr(adr, mem.pageSize)] == p && NoHost(adr, len)
      ensures Segment(adr, len, p, PageOffset(adr, mem.pageSize))
    {
      InPage(adr, len, p);
      forall a | adr <= a < adr + len ensures CellOf(a) == Some(Cell(p, PageOffset(adr, mem.pageSize) + a - adr)) {
        assert CellOf(a) == PageCell(a);
      }
    }

    lemma PageSegmentBytes(adr: nat, n: nat, buf: array<Byte>, off: int)
      requires Valid() && adr + n <= mem.SIZE && PageSegment(adr, n, buf, off)
      ensures forall k :: off <= k < off + n ==> buf[k] == Pages()[adr + k - off]
    {
      forall k | off <= k < off + n ensures buf[k] == Pages()[adr + k - off] {
        assert PageCell(adr + k - off) == Some(Cell(buf, k));
        PagesAt(adr + k - off);
      }
    }

    /** What handle_operation can take on at all. */
    ghost predicate CanHandle(adr: Word64, len: nat)
      requires mem.pageSize > 0
      reads `hosts
    {
      Handles(hosts, mem.pageSize, mem.SIZE, adr, len)
    }

    ghost predicate CanServe(adr: Word64, len: nat)
      requires mem.pageSize > 0
      reads `hosts
    {
      Serves(hosts, mem.pageSize, mem.SIZE, adr, len)
    }

    /** Whether a read returns stored bytes rather than random ones: only the first page decides. */
    ghost predicate Backed(adr: Word64)
      requires Valid() && adr < mem.SIZE
      reads this, mem
    {
      CellOf(adr).Some?
    }

    /** All bytes of an access are stored. */
    ghost predicate Stored(adr: nat, len: nat)
      requires Valid() && adr + len <= mem.SIZE
      reads this, mem
    {
      forall a :: adr <= a < adr + len ==> CellOf(a).Some?
    }

    lemma SegmentBytes(adr: nat, n: nat, buf: array<Byte>, off: int)
      requires Valid() && adr + n <= mem.SIZE && Segment(adr, n, buf, off)
      ensures forall k :: off <= k < off + n ==> buf[k] == Flat()[adr + k - off]
    {
      forall k | off <= k < off + n ensures buf[k] == Flat()[adr + k - off] {
        assert CellOf(adr + k - off) == Some(Cell(buf, k));
        FlatAt(adr + k - off);
      }
    }

    /** Read n bytes that lie in one page, which is allocated if need be. */
    method ReadPage(adr: Word64, n: nat, dst: array<Byte>, to: nat)
      requires Valid() && adr < mem.SIZE && adr + n <= mem.SIZE && PageOffset(adr, mem.pageSize) + n <= mem.pageSize
      requires to + n <= dst.Length && dst !in buffers
      modifies dst, this`buffers, mem
      ensures Valid() && Kept() && dst !in buffers && Flat() == old(Flat()) && Pages() == old(Pages())
      ensures forall k :: 0 <= k < dst.Length ==>
        dst[k] == if to <= k < to + n then Pages()[adr + k - to] else old(dst[k])
    {
      PageBelowCount(adr, mem.SIZE, mem.pageSize);
      var p := FetchPage(PageNr(adr, mem.pageSize));
      ghost var flat, pages := Flat(), Pages();
      InPage(adr, n, p);
      PageSegmentBytes(adr, n, p, PageOffset(adr, mem.pageSize));
      Copy(p, PageOffset(adr, mem.pageSize), dst, to, n);
      assert Flat() == flat && Pages() == pages;
    }

    /** Read from one page, or from two when the access crosses. */
    method ReadPages(adr: Word64, len: nat, dst: array<Byte>)
      requires Valid() && adr < mem.SIZE && adr + len <= mem.SIZE && FitsPages(mem.pageSize, adr, len)
      requires len <= dst.Length && dst !in buffers
      modifies dst, this`buffers, mem
      ensures Valid() && Kept() && Flat() == old(Flat()) && Pages() == old(Pages())
      ensures dst[..len] == Pages()[adr..adr + len] && dst[len..] == old(dst[len..])
    {
      hide CellIn, PageCellIn;
      ghost var pages, before := Pages(), dst[..];
      var offs := PageOffset(adr, mem.pageSize);
      if offs + len > mem.pageSize {
        var first := mem.pageSize - offs;
        SplitPlus(adr, first, mem.pageSize);
        ReadPage(adr, first, dst, 0);
        ReadPage(adr + first, len - first, dst, first);
      } else {
        ReadPage(adr, len, dst, 0);
      }
      assert Pages() == pages;
      assert forall k :: 0 <= k < dst.Length ==> dst[k] == if k < len then pages[adr + k] else before[k];
    }

    method ReadHost(adr: Word64, len: nat, entry: HostMapEntry, dst: array<Byte>)
      requires Valid() && adr + len <= mem.SIZE && HostOf(adr).Some? && entry == HostOf(adr).value.index
      requires adr + len <= HostOf(adr).value.last + 1
      requires len <= dst.Length && dst !in buffers
      modifies dst
      ensures Valid() && Flat() == old(Flat()) && Pages() == old(Pages())
      ensures dst[..len] == Flat()[adr..adr + len] && dst[len..] == old(dst[len..])
    {
      HostSegment(adr, len, HostOf(adr).value);
      SegmentBytes(adr, len, entry.ptr, adr - entry.base);
      Copy(entry.ptr, adr - entry.base, dst, 0, len);
    }

    static method FillNoise(dst: array<Byte>, len: nat, noise: seq<Byte>)
      requires len <= dst.Length && len <= |noise|
      modifies dst
      ensures dst[..len] == noise[..len] && dst[len..] == old(dst[len..])
    {
      for i := 0 to len
        invariant forall k :: 0 <= k < i ==> dst[k] == noise[k]
        invariant forall k :: i <= k < dst.Length ==> dst[k] == old(dst[k])
      {
        dst[i] := noise[i];
      }
    }

    /** Where an access that starts at adr reads and writes: the host ranges and the pages as the flat memory shows
      them, or the pages alone. */
    ghost function Reached(adr: nat): seq<Byte>
      requires Valid()
      reads this, mem, buffers
    {
      if HostOf(adr).Some? then Flat() else Pages()
    }

    /** The access ends within the host range that it starts in or, starting in none, within the second page. */
    ghost predicate InReach(adr: nat, len: nat)
      requires Valid()
      reads this, mem
    {
      match HostOf(adr) case Some(r) => adr + len <= r.last + 1 case None => FitsPages(mem.pageSize, adr, len)
    }

    /** The read branch of handle_operation. */
    method ReadBytes(adr: Word64, len: nat, entry: HostMapEntry, dst: array<Byte>, noise: seq<Byte>)
      requires entry == HostEntry(adr)
      requires Valid() && adr < mem.SIZE && adr + len <= mem.SIZE && InReach(adr, len)
      requires len <= dst.Length && dst !in buffers && len <= |noise|
      modifies dst, this`buffers, mem
      ensures Valid() && Kept() && Flat() == old(Flat()) && Pages() == old(Pages())
      ensures dst[..len] == if old(Backed(adr)) then Reached(adr)[adr..adr + len] else noise[..len]
      ensures dst[len..] == old(dst[len..])
    {
      PageBelowCount(adr, mem.SIZE, mem.pageSize);
      if entry.ptr != null {
        ReadHost(adr, len, entry, dst);
      } else if mem.IsAllocated(adr) {
        ReadPages(adr, len, dst);
      } else {
        FillNoise(dst, len, noise);
      }
    }

    /** The copying loops of a write, plain and byte by byte. */
    static method CopyEnabled(src: array<Byte>, from: nat, dst: array<Byte>, to: nat, n: nat, byt: ByteEnables,
                              scattered: bool)
      requires from + n <= src.Length && to + n <= dst.Length && src != dst && CoversLength(byt, from + n)
      requires if scattered then byt.Some? else forall k :: from <= k < from + n ==> Enabled(byt, k)
      modifies dst
      ensures forall k :: 0 <= k < dst.Length ==>
        dst[k] == if to <= k < to + n && Enabled(byt, from + k - to) then src[from + k - to] else old(dst[k])
    {
      for i := 0 to n
        invariant forall k :: 0 <= k < dst.Length ==>
          dst[k] == if to <= k < to + i && Enabled(byt, from + k - to) then src[from + k - to] else old(dst[k])
      {
        if !scattered || byt.value[from + i] == 0xff {
          dst[to + i] := src[from + i];
        }
      }
    }

    /** Copy the enabled ones of src[from..from + n] to a segment of the memory m. */
    static method WritePart(ghost m: Memory, ghost adr: nat, n: nat, buf: array<Byte>, off: nat, src: array<Byte>,
                            from: nat, byt: ByteEnables, scattered: bool)
      requires m.Valid() && adr + n <= m.mem.SIZE && m.Segment(adr, n, buf, off)
      requires from + n <= src.Length && src !in m.buffers && src != buf && CoversLength(byt, from + n)
      requires if scattered then byt.Some? else forall k :: from <= k < from + n ==> Enabled(byt, k)
      modifies buf
      ensures m.Valid() && m.Flat() == OverlayPart(old(m.Flat()), adr, src[from..from + n], byt, from)
    {
      hide CellIn, PageCellIn;
      ghost var flat := m.Flat();
      m.FlatBytes();
      CopyEnabled(src, from, buf, off, n, byt, scattered);
      forall a | 0 <= a < m.mem.SIZE
        ensures m.ByteAt(a) ==
          if adr <= a < adr + n && Enabled(byt, from + a - adr) then src[from + a - adr] else flat[a]
      {
        m.CellInBounds(a);
        if m.CellOf(a).Some? && m.CellOf(a).value.buf == buf && off <= m.CellOf(a).value.off < off + n {
          m.CellInjective(a, adr + (m.CellOf(a).value.off - off));
        }
      }
      m.FlatIs(OverlayPart(flat, adr, src[from..from + n], byt, from));
    }

    /** Copy the enabled ones of src[from..from + n] to a part of a page of the memory m. */
    static method WriteInPage(ghost m: Memory, ghost adr: nat, n: nat, buf: array<Byte>, off: nat, src: array<Byte>,
                              from: nat, byt: ByteEnables, scattered: bool)
      requires m.Valid() && adr + n <= m.mem.SIZE && m.PageSegment(adr, n, buf, off)
      requires from + n <= src.Length && src !in m.buffers && CoversLength(byt, from + n)
      requires if scattered then byt.Some? else forall k :: from <= k < from + n ==> Enabled(byt, k)
      modifies buf
      ensures m.Valid() && m.Pages() == OverlayPart(old(m.Pages()), adr, src[from..from + n], byt, from)
      ensures m.Flat() == Around(old(m.Flat()), m.hosts, adr, src[from..from + n], byt, from)
    {
      hide PageCellIn;
      ghost var flat, pages := m.Flat(), m.Pages();
      m.FlatBytes();
      m.PageBytes();
      CopyEnabled(src, from, buf, off, n, byt, scattered);
      forall a | 0 <= a < m.mem.SIZE
        ensures m.PageByte(a) ==
          if adr <= a < adr + n && Enabled(byt, from + a - adr) then src[from + a - adr] else pages[a]
        ensures m.HostOf(a).Some? ==> m.ByteAt(a) == flat[a]
        ensures m.HostOf(a).None? ==> m.ByteAt(a) == m.PageByte(a) && flat[a] == pages[a]
      {
        if m.PageCell(a).Some? {
          m.PageCellInBounds(a);
          if m.PageCell(a).value.buf == buf && off <= m.PageCell(a).value.off < off + n {
            m.PageCellUnique(a, adr + (m.PageCell(a).value.off - off));
          }
        }
      }
      m.PagesAre(OverlayPart(pages, adr, src[from..from + n], byt, from));
      m.FlatIs(Around(flat, m.hosts, adr, src[from..from + n], byt, from));
    }

    /** All bytes of an access are stored in pages. */
    ghost predicate PageStored(adr: nat, len: nat)
      requires Valid() && adr + len <= mem.SIZE
      reads this, mem
    {
      forall a :: adr <= a < adr + len ==> PageCell(a).Some?
    }

    /** Write n bytes that lie in one page, which is allocated if need be. */
    method WritePage(adr: Word64, n: nat, src: array<Byte>, from: nat, byt: ByteEnables, scattered: bool)
      requires Valid() && adr < mem.SIZE && adr + n <= mem.SIZE && PageOffset(adr, mem.pageSize) + n <= mem.pageSize
      requires from + n <= src.Length && src !in buffers && CoversLength(byt, from + n)
      requires if scattered then byt.Some? else forall k :: from <= k < from + n ==> Enabled(byt, k)
      modifies this`buffers, mem, buffers
      ensures Valid() && Kept() && src !in buffers && PageStored(adr, n)
      ensures Pages() == OverlayPart(old(Pages()), adr, src[from..from + n], byt, from)
      ensures Flat() == Around(old(Flat()), hosts, adr, src[from..from + n], byt, from)
    {
      PageBelowCount(adr, mem.SIZE, mem.pageSize);
      var p := FetchPage(PageNr(adr, mem.pageSize));
      InPage(adr, n, p);
      WriteInPage(this, adr, n, p, PageOffset(adr, mem.pageSize), src, from, byt, scattered);
    }

    /** The first part of a crossing write stays stored while the second is written. */
    method WriteCrossing(adr: Word64, first: nat, len: nat, src: array<Byte>, byt: ByteEnables, scattered: bool)
      requires Valid() && adr < mem.SIZE && adr + len <= mem.SIZE && first <= len <= src.Length
      requires adr + first < mem.SIZE && PageOffset(adr, mem.pageSize) + first <= mem.pageSize
      requires PageOffset(adr + first, mem.pageSize) + len - first <= mem.pageSize
      requires src !in buffers && CoversLength(byt, len)
      requires if scattered then byt.Some? else forall k :: 0 <= k < len ==> Enabled(byt, k)
      modifies this`buffers, mem, buffers
      ensures Valid() && Kept() && PageStored(adr, first) && PageStored(adr + first, len - first)
      ensures Pages() == OverlayPart(OverlayPart(old(Pages()), adr, src[0..0 + first], byt, 0), adr + first,
                                     src[first..first + (len - first)], byt, first)
      ensures Flat() == Around(Around(old(Flat()), hosts, adr, src[0..0 + first], byt, 0), hosts, adr + first,
                               src[first..first + (len - first)], byt, first)
    {
      hide OverlayPart, Around, CellIn, FindRange, PageNr, PageOffset;
      WritePage(adr, first, src, 0, byt, scattered);
      label Half:
      WritePage(adr + first, len - first, src, first, byt, scattered);
      forall a | adr <= a < adr + first ensures PageCell(a).Some? {
        assert old@Half(PageCell(a)).Some?;
        PageBelowCount(a, mem.SIZE, mem.pageSize);
      }
    }

    /** Write to one page, or to two when the access crosses. */
    method WritePages(adr: Word64, len: nat, src: array<Byte>, byt: ByteEnables, scattered: bool)
      requires Valid() && adr < mem.SIZE && adr + len <= mem.SIZE && FitsPages(mem.pageSize, adr, len)
      requires len <= src.Length && src !in buffers && CoversLength(byt, len)
      requires if scattered then byt.Some? else forall k :: 0 <= k < len ==> Enabled(byt, k)
      modifies this`buffers, mem, buffers
      ensures Valid() && Kept() && PageStored(adr, len)
      ensures Pages() == Overlay(old(Pages()), adr, src[..len], byt)
      ensures Flat() == Around(old(Flat()), hosts, adr, src[..len], byt, 0)
    {
      hide CellIn, PageCellIn;
      var offs := PageOffset(adr, mem.pageSize);
      if offs + len > mem.pageSize {
        var first := mem.pageSize - offs;
        SplitPlus(adr, first, mem.pageSize);
        OverlaySplit(Pages(), adr, src[..len], byt, first);
        AroundSplit(Flat(), hosts, adr, src[..len], byt, first);
        assert src[..len][..first] == src[0..0 + first] && src[..len][first..] == src[first..first + (len - first)];
        WriteCrossing(adr, first, len, src, byt, scattered);
      } else {
        WritePage(adr, len, src, 0, byt, scattered);
      }
    }

    method WriteHost(adr: Word64, len: nat, entry: HostMapEntry, src: array<Byte>, byt: ByteEnables, scattered: bool)
      requires Valid() && adr + len <= mem.SIZE && HostOf(adr).Some? && entry == HostOf(adr).value.index
      requires adr + len <= HostOf(adr).value.last + 1
      requires len <= src.Length && src !in buffers && CoversLength(byt, len)
      requires if scattered then byt.Some? else forall k :: 0 <= k < len ==> Enabled(byt, k)
      modifies buffers
      ensures Valid() && Flat() == Overlay(old(Flat()), adr, src[..len], byt) && Stored(adr, len)
    {
      HostSegment(adr, len, HostOf(adr).value);
      WritePart(this, adr, len, entry.ptr, adr - entry.base, src, 0, byt, scattered);
    }

    /** The write branch of handle_operation. */
    method WriteBytes(adr: Word64, len: nat, entry: HostMapEntry, src: array<Byte>, byt: ByteEnables, scattered: bool)
      requires entry == HostEntry(adr)
      requires Valid() && adr < mem.SIZE && adr + len <= mem.SIZE && InReach(adr, len)
      requires len <= src.Length && src !in buffers && CoversLength(byt, len)
      requires if scattered then byt.Some? else forall k :: 0 <= k < len ==> Enabled(byt, k)
      modifies this`buffers, mem, buffers
      ensures Valid() && Kept() && Stored(adr, len)
      ensures Reached(adr) == Overlay(old(Reached(adr)), adr, src[..len], byt)
      ensures HostOf(adr).None? ==> Flat() == Around(old(Flat()), hosts, adr, src[..len], byt, 0)
    {
      if entry.ptr != null {
        WriteHost(adr, len, entry, src, byt, scattered);
      } else {
        WritePages(adr, len, src, byt, scattered);
        PageStoredIsStored(adr, len);
      }
    }

    lemma PageStoredIsStored(adr: nat, len: nat)
      requires Valid() && adr + len <= mem.SIZE && PageStored(adr, len)
      ensures Stored(adr, len)
    {
      forall a | adr <= a < adr + len ensures CellOf(a).Some? {
        assert PageCell(a).Some?;
        if HostOf(a).Some? { assert IsHost(HostOf(a).value); }
      }
    }

    /** Some byte enable is not 0xff: the bitwise and of all of them tells. */
    static method Scattered(byt: ByteEnables, len: nat) returns (scattered: bool)
      requires CoversLength(byt, len)
      ensures if scattered then byt.Some? else forall k :: 0 <= k < len ==> Enabled(byt, k)
    {
      scattered := false;
      if byt.Some? {
        var acc: bv8 := 0xff;
        for i := 0 to |byt.value|
          invariant acc == 0xff <==> forall k :: 0 <= k < i ==> byt.value[k] == 0xff
        {
          acc := And8(acc, byt.value[i]);
        }
        scattered := acc != 0xff;
      }
    }

    static function And8(a: bv8, b: bv8): (c: bv8)
      ensures c == 0xff <==> a == 0xff && b == 0xff
    {
      a & b
    }

    /** The branch on the command, once the payload has been checked. */
    method Perform(command: Command, adr: Word64, len: nat, entry: HostMapEntry, data: array<Byte>, byt: ByteEnables,
                   scattered: bool, noise: seq<Byte>)
      requires entry == HostEntry(adr) && len <= |noise|
      requires Valid() && adr < mem.SIZE && adr + len <= mem.SIZE && InReach(adr, len)
      requires len <= data.Length && data !in buffers && CoversLength(byt, len)
      requires if scattered then byt.Some? else forall k :: 0 <= k < len ==> Enabled(byt, k)
      modifies data, this`buffers, mem, buffers
      ensures Valid() && Kept() && data[len..] == old(data[len..])
      ensures Acts(old(Snapshot()), Snapshot(), old(Pages()), Pages(), command, adr, byt, old(data[..len]), data[..len],
                   noise)
    {
      hide Around, PageCellIn, CellIn;
      match command {
        case Read => ReadBytes(adr, len, entry, data, noise);
        case Write =>
          WriteBytes(adr, len, entry, data, byt, scattered);
          forall a | adr <= a < adr + len ensures Snapshot().CellOf(a).Some? { assert CellOf(a).Some?; }
        case Ignore =>
      }
    }

    /** handle_operation: the checks, and what the access does to the memory as a whole. */
    method Operate(trans: Payload, noise: seq<Byte>) returns (n: nat)
      requires Valid() && Mapped() && CanHandle(trans.address, trans.length) && trans.length <= |noise|
      requires trans.WellFormed() && trans.data !in buffers
      modifies trans`status, trans`dmiAllowed, trans.data, this`buffers, mem, buffers
      ensures Valid() && Kept()
      ensures trans.status ==
        if trans.address + trans.length > mem.SIZE then AddressError
        else if trans.streamingWidth < trans.length then GenericError
        else Okay
      ensures n == if trans.status == Okay then trans.length else 0
      ensures trans.data[n..] == old(trans.data[n..])
      ensures trans.dmiAllowed == if trans.status == Okay then allowDmi else old(trans.dmiAllowed)
      ensures if trans.status == Okay then
          Acts(old(Snapshot()), Snapshot(), old(Pages()), Pages(), trans.command, trans.address, trans.byteEnable,
               old(trans.data[..trans.length]), trans.data[..n], noise)
        else Snapshot() == old(Snapshot()) && Pages() == old(Pages())
    {
      hide FlatAfter, DataAfter, CellIn, Around, PageCellIn;
      var adr, len := trans.address, trans.length;
      if Add64(adr, len) > mem.SIZE {
        trans.status := AddressError;
        return 0;
      }
      if trans.streamingWidth < len {
        trans.status := GenericError;
        return 0;
      }
      var scattered := Scattered(trans.byteEnable, len);
      trans.dmiAllowed := allowDmi;
      trans.status := Okay;
      assert Valid() && Snapshot() == old(Snapshot()) && Pages() == old(Pages());
      var entry := hostMemLut.GetEntry(adr);
      Perform(trans.command, adr, len, entry, trans.data, trans.byteEnable, scattered, noise);
      return len;
    }

    /** And byte by byte. */
    method HandleOperation(trans: Payload, noise: seq<Byte>) returns (n: nat)
      requires Valid() && Mapped() && CanHandle(trans.address, trans.length) && trans.length <= |noise|
      requires trans.WellFormed() && trans.data !in buffers
      modifies trans`status, trans`dmiAllowed, trans.data, this`buffers, mem, buffers
      ensures Valid() && Kept()
      ensures trans.status ==
        if trans.address + trans.length > mem.SIZE then AddressError
        else if trans.streamingWidth < trans.length then GenericError
        else Okay
      ensures n == if trans.status == Okay then trans.length else 0
      ensures trans.data[n..] == old(trans.data[n..])
      ensures trans.dmiAllowed == if trans.status == Okay then allowDmi else old(trans.dmiAllowed)
      ensures if trans.status == Okay then
          Acts(old(Snapshot()), Snapshot(), old(Pages()), Pages(), trans.command, trans.address, trans.byteEnable,
               old(trans.data[..trans.length]), trans.data[..n], noise)
        else Snapshot() == old(Snapshot()) && Pages() == old(Pages())
      ensures trans.status == Okay ==> forall a :: 0 <= a < mem.SIZE ==>
        Flat()[a] ==
        if trans.command == Write && trans.address <= a < trans.address + trans.length
            && (trans.byteEnable.None? || trans.byteEnable.value[a - trans.address] == 0xff)
            && (HostOf(trans.address).Some? || HostOf(a).None?)
        then old(trans.data[..trans.length])[a - trans.address] else old(Flat())[a]
      ensures trans.status == Okay && HostOf(trans.address).None? ==> forall a :: 0 <= a < mem.SIZE ==>
        Pages()[a] ==
        if trans.command == Write && trans.address <= a < trans.address + trans.length
            && (trans.byteEnable.None? || trans.byteEnable.value[a - trans.address] == 0xff)
        then old(trans.data[..trans.length])[a - trans.address] else old(Pages())[a]
      ensures trans.status == Okay && trans.command == Read ==> forall k :: 0 <= k < trans.length ==>
        trans.data[k] ==
        if old(Snapshot()).CellOf(trans.address).None? then noise[k]
        else if HostOf(trans.address).Some? then old(Flat())[trans.address + k]
        else old(Pages())[trans.address + k]
    {
      hide FlatAfter, DataAfter, CellIn, Around, PageCellIn, Acts, FindRange, UniformIn;
      ghost var v, pages, before := Snapshot(), Pages(), trans.data[..trans.length];
      n := Operate(trans, noise);
      if trans.status == Okay {
        ActsBytewise(v, Snapshot(), pages, Pages(), trans.command, trans.address, trans.byteEnable, before,
                     trans.data[..n], noise);
      }
    }

    /** The same for an access that does not run into a host range: it is one to the flat memory. */
    method HandleFlat(trans: Payload, noise: seq<Byte>) returns (n: nat)
      requires Valid() && Mapped() && CanServe(trans.address, trans.length) && trans.length <= |noise|
      requires trans.WellFormed() && trans.data !in buffers
      modifies trans`status, trans`dmiAllowed, trans.data, this`buffers, mem, buffers
      ensures Valid() && Kept()
      ensures trans.status ==
        if trans.address + trans.length > mem.SIZE then AddressError
        else if trans.streamingWidth < trans.length then GenericError
        else Okay
      ensures n == if trans.status == Okay then trans.length else 0
      ensures trans.data[n..] == old(trans.data[n..])
      ensures trans.dmiAllowed == if trans.status == Okay then allowDmi else old(trans.dmiAllowed)
      ensures if trans.status == Okay then
          old(Snapshot()).Performs(Snapshot(), trans.command, trans.address, trans.byteEnable,
                                   old(trans.data[..trans.length]), trans.data[..n], noise)
        else Snapshot() == old(Snapshot())
      ensures trans.status == Okay ==> forall a :: 0 <= a < mem.SIZE ==>
        Flat()[a] ==
        if trans.command == Write && trans.address <= a < trans.address + trans.length
            && (trans.byteEnable.None? || trans.byteEnable.value[a - trans.address] == 0xff)
        then old(trans.data[..trans.length])[a - trans.address] else old(Flat())[a]
      ensures trans.status == Okay && trans.command == Read ==> forall k :: 0 <= k < trans.length ==>
        trans.data[k] ==
        if old(Snapshot()).CellOf(trans.address).Some? then old(Flat())[trans.address + k] else noise[k]
    {
      hide FlatAfter, DataAfter, CellIn, Around, PageCellIn, Acts, UniformIn, FindRange, View.Performs;
      ghost var v, pages, before := Snapshot(), Pages(), trans.data[..trans.length];
      PagesAhead(trans.address, trans.length);
      n := Operate(trans, noise);
      if trans.status == Okay {
        ActsIsPerforms(v, Snapshot(), pages, Pages(), trans.command, trans.address, trans.byteEnable, before,
                       trans.data[..n], noise);
        PerformsBytewise(v, Snapshot(), trans.command, trans.address, trans.byteEnable, before, trans.data[..n], noise);
      }
    }

    lemma PagesAhead(adr: Word64, len: nat)
      requires Valid() && CanServe(adr, len)
      ensures adr + len <= mem.SIZE && HostOf(adr).None? ==> Pages()[adr..adr + len] == Flat()[adr..adr + len]
      ensures adr + len <= mem.SIZE ==> UniformIn(hosts, adr, len)
    {
      if adr + len <= mem.SIZE {
        AdmitsOutside(mem.SIZE, adr, len);
        if HostOf(adr).None? { PagesShow(adr, len); }
      }
    }

    // --- direct memory interface

    /** The window of a host range is faithful exactly when the range ends inside the memory. */
    lemma HostWindow(r: Range<HostMapEntry>, d: Dmi)
      requires Valid() && r in hosts && d.ptr == r.index.ptr && d.start == r.first && d.end == r.last
      ensures Snapshot().Faithful(d) <==> d.end < mem.SIZE
    {
      if d.end < mem.SIZE {
        OneHost(r.first, r);
        HostSegment(r.first, r.last - r.first + 1, r);
        SegmentIsWindow(d);
      }
    }

    lemma SegmentIsWindow(d: Dmi)
      requires Valid() && d.ptr != null && d.start <= d.end < mem.SIZE
      requires Segment(d.start, d.end - d.start + 1, d.ptr, 0)
      ensures Snapshot().Faithful(d)
    {
      forall a | d.start <= a <= d.end
        ensures CellIn(hosts, mem.arr, mem.pageSize, a) == Some(Cell(d.ptr, a - d.start))
      {
        assert CellOf(a) == Some(Cell(d.ptr, 0 + a - d.start));
      }
    }

    /** The window of a page is faithful exactly when no host range meets it. */
    lemma PageWindow(adr: nat, d: Dmi)
      requires Valid() && adr < mem.SIZE && d.ptr != null
      requires PageNr(adr, mem.pageSize) < |mem.arr| && mem.arr[PageNr(adr, mem.pageSize)] == d.ptr
      requires d.start == adr - PageOffset(adr, mem.pageSize)
      requires d.end + 1 == Min(d.start + mem.pageSize, mem.SIZE)
      ensures Snapshot().Faithful(d) <==> NoHost(d.start, d.end - d.start + 1)
    {
      var n := d.end - d.start + 1;
      PageStart(adr, mem.pageSize);
      if NoHost(d.start, n) {
        BarePage(d.start, n, d.ptr);
        SegmentIsWindow(d);
      } else {
        var r :| r in hosts && !(r.last < d.start || d.start + n <= r.first);
        var a := if r.first < d.start then d.start else r.first;
        OneHost(a, r);
        assert CellOf(a).value.buf != d.ptr;
        assert CellIn(hosts, mem.arr, mem.pageSize, a) == CellOf(a);
      }
    }

    /** A granted window is faithful exactly when a host range ends inside the memory, or a page meets no host range. */
    lemma GrantFaithful(adr: Word64, d: Dmi)
      requires Valid() && adr < mem.SIZE && Snapshot().Grants(adr, d)
      ensures d.ptr in buffers
      ensures Snapshot().Faithful(d) <==> match HostOf(adr)
        case Some(r) => r.last < mem.SIZE
        case None => NoHost(d.start, d.end - d.start + 1)
    {
      match HostOf(adr)
      case Some(r) => HostWindow(r, d);
      case None => PageWindow(adr, d);
    }

    method HandleDmi(adr: Word64, dmi0: Dmi) returns (ok: bool, dmi: Dmi)
      requires Valid() && Mapped() && adr < mem.SIZE
      modifies this`buffers, mem
      ensures Valid() && Kept()
      ensures old(Snapshot()).Keeps(Snapshot()) && Flat() == old(Flat()) && Pages() == old(Pages())
      ensures ok == allowDmi
      ensures if ok then Snapshot().Grants(adr, dmi) else dmi == dmi0
    {
      if allowDmi {
        var entry := hostMemLut.GetEntry(adr);
        if entry.ptr != null {
          dmi := Dmi(entry.ptr, entry.base, entry.base + entry.size - 1, DmiReadWrite);
        } else {
          PageBelowCount(adr, mem.SIZE, mem.pageSize);
          PageStart(adr, mem.pageSize);
          var p := FetchPage(PageNr(adr, mem.pageSize));
          var start := adr - PageOffset(adr, mem.pageSize);
          dmi := Dmi(p, start, Min(start + mem.pageSize, mem.SIZE) - 1, DmiReadWrite);
        }
      } else {
        dmi := dmi0;
      }
      return allowDmi, dmi;
    }

    // --- host memory

    ghost predicate HostsApart(hosts: set<Range<HostMapEntry>>)
      reads mem
    {
      && (forall r :: r in hosts ==> IsHost(r) && r.index.ptr !in mem.arr)
      && (forall r, q :: r in hosts && q in hosts && r != q ==> r.index.ptr != q.index.ptr && !Touches(r, q))
    }

    lemma HostsStayApart(base: Word64, size: Word64, ptr: array<Byte>)
      requires Valid() && 1 <= size <= ptr.Length && ptr !in buffers && FreeOrTaken(hosts, base, size)
      ensures base + size <= TWO64 && !StartsOnEnd(hosts, base) ==> HostsApart(hosts + {HostRange(base, size, ptr)})
    {
      if base + size <= TWO64 && !StartsOnEnd(hosts, base) {
        var n := HostRange(base, size, ptr);
        assert IsHost(n) && ptr !in mem.arr;
        forall r | r in hosts ensures !Touches(r, n) && !Touches(n, r) && r.index.ptr != ptr {}
      }
    }

    /** Map a host buffer; a range that wraps around or starts on a mapped end point is refused.  Whether it overlaps a
      mapped one is not looked at: if it does, what the addresses of both lead to is what the table says, and no set of
      ranges any more. */
    method MapHostMemory(base: Word64, size: Word64, ptr: array<Byte>) returns (ok: bool)
      requires Valid() && HostTable() && 1 <= size <= ptr.Length && ptr !in buffers
      modifies this`hosts, this`buffers, hostMemLut
      ensures Valid()
      ensures ok <==> base + size <= TWO64 && !StartsOnEnd(old(hosts), base)
      ensures hostMemLut.lut == if ok then Insert(old(hostMemLut.lut), HostMapEntry(ptr, base, size), base, size)
        else old(hostMemLut.lut)
      ensures FreeOrTaken(old(hosts), base, size) ==>
        HostTable() && hosts == if ok then old(hosts) + {HostRange(base, size, ptr)} else old(hosts)
      ensures !FreeOrTaken(old(hosts), base, size) ==> hosts == old(hosts)
      ensures buffers <= old(buffers) + {ptr}
    {
      HostOutcome(State(hostMemLut.lut, hostMemLut.count), hosts, base, size);
      if FreeOrTaken(hosts, base, size) {
        AddHost(State(hostMemLut.lut, hostMemLut.count), hosts, base, size, ptr);
        HostsStayApart(base, size, ptr);
      }
      ghost var apart := FreeOrTaken(hosts, base, size);
      var r := hostMemLut.AddEntry(HostMapEntry(ptr, base, size), base, size);
      ok := r == Added;
      if ok && apart {
        hosts := hosts + {HostRange(base, size, ptr)};
        buffers := buffers + {ptr};
      }
    }

    lemma FewerHostsApart(rest: set<Range<HostMapEntry>>)
      requires Valid() && rest <= hosts
      ensures HostsApart(rest) && forall r :: r in rest ==> r.index.ptr in buffers
    {
    }

    /** Unmap a host range, named by its base and size. */
    method UnmapHostMemory(base: Word64, size: Word64) returns (found: bool)
      requires Valid() && HostTable()
      modifies this`hosts, hostMemLut
      ensures Valid() && HostTable()
      ensures hosts == Without(old(hosts), base, size)
      ensures found <==> hosts != old(hosts)
    {
      RemoveHost(State(hostMemLut.lut, hostMemLut.count), hosts, base, size);
      FewerHostsApart(Without(hosts, base, size));
      found := hostMemLut.RemoveEntry(HostMapEntry(null, base, size));
      hosts := Without(hosts, base, size);
    }

    /** What mapping a range makes of the memory, and what unmapping does. */
    twostate lemma MapGains(r: Range<HostMapEntry>)
      requires old(Valid()) && Valid() && mem.arr == old(mem.arr) && r !in old(hosts) && hosts == old(hosts) + {r}
      ensures Gains(old(Snapshot()), Snapshot(), r)
    {
      assert r in hosts;
      forall q | q in old(hosts) ensures !Touches(q, r) && q.index.ptr != r.index.ptr { assert q in hosts && q != r; }
    }

    twostate lemma UnmapGains(base: Word64, size: Word64)
      requires old(Valid()) && Valid() && mem.arr == old(mem.arr)
      requires hosts == Without(old(hosts), base, size) && hosts != old(hosts)
      ensures exists r: Range<HostMapEntry> ::
        Gains(Snapshot(), old(Snapshot()), r) && r.first == base && r.last == base + size - 1
    {
      WithoutGains(old(Snapshot()), Snapshot(), base, size);
    }

    /** A mapped range moves its addresses to the host buffer and no other. */
    twostate lemma CellsAfterMap(r: Range<HostMapEntry>, a: nat)
      requires old(Valid()) && Valid() && mem.arr == old(mem.arr) && r !in old(hosts) && hosts == old(hosts) + {r}
      requires a < mem.SIZE
      ensures CellOf(a) == if r.first <= a <= r.last then Some(Cell(r.index.ptr, a - r.first)) else old(CellOf(a))
    {
      if r.first <= a <= r.last {
        OneHost(a, r);
      } else if old(HostOf(a)).Some? {
        OneHost(a, old(HostOf(a)).value);
      }
    }

    /** Unmapping a range brings the pages beneath it back, as they were, and moves no other address. */
    twostate lemma CellsAfterUnmap(base: Word64, size: Word64, a: nat)
      requires old(Valid()) && Valid() && mem.arr == old(mem.arr) && a < mem.SIZE
      requires hosts == Without(old(hosts), base, size) && hosts != old(hosts)
      ensures CellOf(a) == if base <= a < base + size then PageCell(a) else old(CellOf(a))
    {
      var r :| r in old(hosts) && r !in hosts;
      assert r.first == base && r.last == base + size - 1;
      if HostOf(a).Some? {
        assert HostOf(a).value in old(hosts) && !Touches(HostOf(a).value, r);
      }
      if old(HostOf(a)).Some? && old(HostOf(a)).value != r {
        var q := old(HostOf(a)).value;
        assert !Touches(q, r);
        assert q in hosts;
        OneHost(a, q);
      }
    }
  }

  lemma WithoutGains(v: View, w: View, base: Word64, size: Word64)
    requires w.pageSize == v.pageSize && w.arr == v.arr && |w.flat| == |v.flat|
    requires w.hosts == Without(v.hosts, base, size) && w.hosts != v.hosts
    requires forall r :: r in v.hosts ==> Memory.IsHost(r) && r.index.ptr !in v.arr
    requires forall r, q :: r in v.hosts && q in v.hosts && r != q ==> r.index.ptr != q.index.ptr && !Touches(r, q)
    ensures exists r: Range<HostMapEntry> :: Gains(w, v, r) && r.first == base && r.last == base + size - 1
  {
    var r :| r in v.hosts && r !in w.hosts;
    assert Gains(w, v, r);
  }

  /** Unmapping straight after mapping leaves the hosts as they were. */
  lemma UnmapUndoesMap(hosts: set<Range<HostMapEntry>>, base: Word64, size: Word64, ptr: array<Byte>)
    requires 1 <= size && base + size <= TWO64
    requires forall r :: r in hosts ==> Memory.IsHost(r) && (r.last < base || base + size <= r.first)
    ensures Without(hosts + {HostRange(base, size, ptr)}, base, size) == hosts
  {
  }

  function HostRange(base: Word64, size: Word64, ptr: array<Byte>): Range<HostMapEntry>
    requires 1 <= size && base + size <= TWO64
  {
    Range(base, base + size - 1, HostMapEntry(ptr, base, size))
  }

  ghost predicate StartsOnEnd(hosts: set<Range<HostMapEntry>>, base: Word64) {
    exists r :: r in hosts && (r.first == base || r.last == base)
  }

  /** A new range overlaps no mapped one, unless it starts exactly on one of its ends. */
  ghost predicate FreeOrTaken(hosts: set<Range<HostMapEntry>>, base: Word64, size: Word64) {
    StartsOnEnd(hosts, base) || forall r :: r in hosts ==> r.last < base || base + size <= r.first
  }

  ghost predicate HostTracks(s: State<HostMapEntry>, hosts: set<Range<HostMapEntry>>) {
    Tracks(s, hosts, NullHost, SameHost) && forall r :: r in hosts ==> Memory.IsHost(r)
  }

  lemma HostOutcome(s: State<HostMapEntry>, hosts: set<Range<HostMapEntry>>, base: Word64, size: Word64)
    requires HostTracks(s, hosts) && 1 <= size
    ensures AddOutcome(s.lut, NullHost, SameHost, base, size) == Added <==>
      base + size <= TWO64 && !StartsOnEnd(hosts, base)
  {
    if StartsOnEnd(hosts, base) {
      TakenStart(s, hosts, base, size);
    } else if base + size > TWO64 {
      WrapsAround(base, size);
    } else {
      var k := LowerBound(s.lut, base);
      LastAddress(base, size, base + size - 1);
      if k < |s.lut| { assert Owned(s.lut[k], hosts); }
    }
  }

  lemma AddHost(s: State<HostMapEntry>, hosts: set<Range<HostMapEntry>>, base: Word64, size: Word64, ptr: array<Byte>)
    requires HostTracks(s, hosts) && 1 <= size && FreeOrTaken(hosts, base, size)
    ensures base + size <= TWO64 && !StartsOnEnd(hosts, base) ==>
      Tracks(State(Insert(s.lut, HostMapEntry(ptr, base, size), base, size), s.count + 1),
             hosts + {HostRange(base, size, ptr)}, NullHost, SameHost)
  {
    if base + size <= TWO64 && !StartsOnEnd(hosts, base) {
      var e := HostMapEntry(ptr, base, size);
      AddStaysDisjoint(hosts, Range(base, base + size - 1, e));
      AddDistinct(s.lut, hosts, NullHost, SameHost, Range(base, base + size - 1, e), size);
    }
  }

  lemma WrapsAround(base: Word64, size: Word64)
    requires base + size > TWO64
    ensures Sub64(Add64(base, size), 1) < base
  {
  }

  lemma TakenStart(s: State<HostMapEntry>, hosts: set<Range<HostMapEntry>>, base: Word64, size: Word64)
    requires HostTracks(s, hosts) && StartsOnEnd(hosts, base)
    ensures AddOutcome(s.lut, NullHost, SameHost, base, size) == AlreadyMapped
  {
    var r :| r in hosts && (r.first == base || r.last == base);
    EndsAreNodes(s.lut, hosts, r);
    var i :| 0 <= i < |s.lut| && s.lut[i].addr == base;
    NodeNotNull(s, hosts, i);
    assert LowerBound(s.lut, base) == i;
  }

  lemma NodeNotNull(s: State<HostMapEntry>, hosts: set<Range<HostMapEntry>>, i: nat)
    requires HostTracks(s, hosts) && i < |s.lut|
    ensures !SameHost(s.lut[i].index, NullHost)
  {
    assert Owned(s.lut[i], hosts);
  }

  /** The ranges other than the one of that base and size. */
  ghost function Without(hosts: set<Range<HostMapEntry>>, base: Word64, size: Word64): set<Range<HostMapEntry>> {
    set r | r in hosts && !(r.index.base == base && r.index.size == size)
  }

  lemma RemoveHost(s: State<HostMapEntry>, hosts: set<Range<HostMapEntry>>, base: Word64, size: Word64)
    requires HostTracks(s, hosts)
    ensures var k, rest := FirstOf(s.lut, SameHost, HostMapEntry(null, base, size)), Without(hosts, base, size);
      && (k < |s.lut| <==> rest != hosts)
      && (k < |s.lut| ==>
        HasPartner(s.lut, k) && s.count > 0 && Tracks(State(Erase(s.lut, k), s.count - 1), rest, NullHost, SameHost))
    ensures s.lut != [] ==> s.count > 0
  {
    var entry := HostMapEntry(null, base, size);
    var k := FirstOf(s.lut, SameHost, entry);
    if s.lut != [] {
      assert Owned(s.lut[0], hosts);
      assert hosts != {};
    }
    if k < |s.lut| {
      assert Owned(s.lut[k], hosts);
      var q :| q in hosts && EndOf(s.lut[k], q);
      OneNamed(hosts, q, base, size);
      TracksFewer(s, hosts, entry, q);
    } else {
      NoneNamed(s.lut, hosts, base, size);
    }
  }

  lemma TracksFewer(s: State<HostMapEntry>, hosts: set<Range<HostMapEntry>>, entry: HostMapEntry,
                    q: Range<HostMapEntry>)
    requires HostTracks(s, hosts) && q in hosts && q.index.base == entry.base && q.index.size == entry.size
    ensures var k := FirstOf(s.lut, SameHost, entry);
      && k < |s.lut| && HasPartner(s.lut, k)
      && Tracks(State(Erase(s.lut, k), s.count - 1), hosts - {q}, NullHost, SameHost)
  {
    forall r | r in hosts && SameHost(r.index, entry)
      ensures q.first <= r.first
    {
      assert Memory.IsHost(r) && Memory.IsHost(q);
    }
    RemoveLowest(s.lut, hosts, SameHost, entry, q);
  }

  lemma NoneNamed(lut: seq<Node<HostMapEntry>>, hosts: set<Range<HostMapEntry>>, base: Word64, size: Word64)
    requires Represents(lut, hosts) && FirstOf(lut, SameHost, HostMapEntry(null, base, size)) == |lut|
    ensures Without(hosts, base, size) == hosts
  {
    forall q | q in hosts ensures !(q.index.base == base && q.index.size == size) {
      assert Stored(lut, q);
    }
  }

  lemma OneNamed(hosts: set<Range<HostMapEntry>>, q: Range<HostMapEntry>, base: Word64, size: Word64)
    requires q in hosts && q.index.base == base && q.index.size == size
    requires Disjoint(hosts) && forall r :: r in hosts ==> Memory.IsHost(r)
    ensures Without(hosts, base, size) == hosts - {q}
  {
    forall r | r in hosts && r.index.base == base && r.index.size == size ensures r == q {
      assert r != q ==> Touches(r, q);
    }
  }
}
