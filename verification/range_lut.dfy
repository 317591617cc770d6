/** The range lookup table (src/common/util/range_lut.h).

  Its std::map from end points to entries is a sequence of nodes sorted by address: an
  iterator is a position, lower_bound and operator[] are the functions below.  What the
  table is for is a set of ranges, and Represents ties the two. */
module RangeTables {
  import opened Words
  import opened Options

  datatype EntryKind = BeginRange | EndRange | SingleByteRange
  datatype Node<T> = Node(addr: Word64, index: T, kind: EntryKind)
  datatype AddResult = Added | AlreadyMapped | WrapAround

  /** The addresses first..last, mapped to index. */
  datatype Range<T> = Range(first: Word64, last: Word64, index: T)

  // ---------------------------------------------------------------------------
  // The sorted map

  predicate Sorted<T>(lut: seq<Node<T>>) {
    forall i, j :: 0 <= i < j < |lut| ==> lut[i].addr < lut[j].addr
  }

  /** The first position whose address is not below addr. */
  function LowerBound<T>(lut: seq<Node<T>>, addr: Word64): (k: nat)
    ensures k <= |lut|
    ensures forall i :: 0 <= i < k ==> lut[i].addr < addr
    ensures k < |lut| ==> addr <= lut[k].addr
  {
    if lut == [] || addr <= lut[0].addr then 0 else 1 + LowerBound(lut[1..], addr)
  }

  /** Insert the node, or replace the one stored at its address. */
  function Put<T>(lut: seq<Node<T>>, n: Node<T>): (r: seq<Node<T>>)
    requires Sorted(lut)
    ensures Sorted(r)
  {
    var k := LowerBound(lut, n.addr);
    lut[..k] + [n] + lut[if k < |lut| && lut[k].addr == n.addr then k + 1 else k..]
  }

  lemma PutNodes<T>(lut: seq<Node<T>>, n: Node<T>, m: Node<T>)
    requires Sorted(lut)
    ensures m in Put(lut, n) <==> m == n || (m in lut && m.addr != n.addr)
  {
    var k := LowerBound(lut, n.addr);
    var j := if k < |lut| && lut[k].addr == n.addr then k + 1 else k;
    InParts(lut, k, j, m);
    assert m in lut[..k] ==> m.addr < n.addr;
    assert m in lut[j..] ==> n.addr < m.addr;
    assert m in lut[k..j] ==> n.addr == m.addr;
  }

  lemma InParts<T>(s: seq<T>, k: nat, j: nat, x: T)
    requires k <= j <= |s|
    ensures x in s <==> x in s[..k] || x in s[k..j] || x in s[j..]
  {
    assert s == s[..k] + s[k..j] + s[j..];
  }

  /** getEntry on a non-empty table. */
  function Lookup<T>(lut: seq<Node<T>>, nullEntry: T, addr: Word64): T {
    var k := LowerBound(lut, addr);
    if k < |lut| && (lut[k].kind == EndRange || lut[k].addr == addr) then lut[k].index else nullEntry
  }

  function AddOutcome<T>(lut: seq<Node<T>>, nullEntry: T, same: (T, T) -> bool, base: Word64, size: Word64): AddResult {
    var k := LowerBound(lut, base);
    if k < |lut| && lut[k].addr == base && !same(lut[k].index, nullEntry) then AlreadyMapped
    else if Sub64(Add64(base, size), 1) < base then WrapAround
    else Added
  }

  function Insert<T>(lut: seq<Node<T>>, i: T, base: Word64, size: Word64): (r: seq<Node<T>>)
    requires Sorted(lut)
    ensures Sorted(r)
  {
    if size > 1 then
      Put(Put(lut, Node(base, i, BeginRange)), Node(Sub64(Add64(base, size), 1), i, EndRange))
    else
      Put(lut, Node(base, i, SingleByteRange))
  }

  /** The first position holding an entry equal to i. */
  function FirstOf<T>(lut: seq<Node<T>>, same: (T, T) -> bool, i: T): (k: nat)
    ensures k <= |lut|
    ensures forall j :: 0 <= j < k ==> !same(lut[j].index, i)
    ensures k < |lut| ==> same(lut[k].index, i)
  {
    if lut == [] || same(lut[0].index, i) then 0 else 1 + FirstOf(lut[1..], same, i)
  }

  predicate HasPartner<T>(lut: seq<Node<T>>, k: nat)
    requires k < |lut|
  {
    lut[k].kind != SingleByteRange ==> k + 2 <= |lut|
  }

  /** Erase the node at k, and its successor unless the node is a single byte. */
  function Erase<T>(lut: seq<Node<T>>, k: nat): (r: seq<Node<T>>)
    requires k < |lut| && HasPartner(lut, k)
    ensures Sorted(lut) ==> Sorted(r)
  {
    lut[..k] + lut[if lut[k].kind == SingleByteRange then k + 1 else k + 2..]
  }

  /** What validate computes from position k on. */
  predicate Accepts<T>(lut: seq<Node<T>>, nullEntry: T, same: (T, T) -> bool, k: nat, mapped: bool)
    requires k <= |lut|
    decreases |lut| - k
  {
    if k == |lut| then true
    else match lut[k].kind
      case SingleByteRange =>
        (same(lut[k].index, nullEntry) || !mapped) && Accepts(lut, nullEntry, same, k + 1, mapped)
      case BeginRange =>
        if same(lut[k].index, nullEntry) then Accepts(lut, nullEntry, same, k + 1, mapped)
        else !mapped && Accepts(lut, nullEntry, same, k + 1, true)
      case EndRange =>
        mapped && Accepts(lut, nullEntry, same, k + 1, false)
  }

  // ---------------------------------------------------------------------------
  // The table as an object

  class RangeLut<T> {
    const nullEntry: T
    const same: (T, T) -> bool
    var lut: seq<Node<T>>
    var count: nat

    constructor (nullEntry: T, same: (T, T) -> bool)
      ensures this.nullEntry == nullEntry && this.same == same
      ensures lut == [] && count == 0
    {
      this.nullEntry, this.same := nullEntry, same;
      lut, count := [], 0;
    }

    method AddEntry(i: T, base: Word64, size: Word64) returns (r: AddResult)
      requires Sorted(lut)
      modifies this
      ensures Sorted(lut)
      ensures r == AddOutcome(old(lut), nullEntry, same, base, size)
      ensures lut == if r == Added then Insert(old(lut), i, base, size) else old(lut)
      ensures count == if r == Added then old(count) + 1 else old(count)
    {
      var k := LowerBound(lut, base);
      if k < |lut| && lut[k].addr == base && !same(lut[k].index, nullEntry) {
        return AlreadyMapped;
      }
      var eaddr := Sub64(Add64(base, size), 1);
      if eaddr < base {
        return WrapAround;
      }
      lut := Put(lut, Node(base, i, if size > 1 then BeginRange else SingleByteRange));
      if size > 1 {
        lut := Put(lut, Node(eaddr, i, EndRange));
      }
      count := count + 1;
      return Added;
    }

    method RemoveEntry(i: T) returns (found: bool)
      requires Sorted(lut)
      requires var k := FirstOf(lut, same, i); k < |lut| ==> HasPartner(lut, k)
      requires lut != [] ==> count > 0
      modifies this
      ensures Sorted(lut)
      ensures found <==> FirstOf(old(lut), same, i) < |old(lut)|
      ensures found ==> lut == Erase(old(lut), FirstOf(old(lut), same, i)) && count == old(count) - 1
      ensures !found ==> lut == old(lut) && count == old(count)
    {
      var start := 0;
      while start < |lut| && !same(lut[start].index, i)
        invariant start <= |lut|
        invariant forall j :: 0 <= j < start ==> !same(lut[j].index, i)
      {
        start := start + 1;
      }
      assert start == FirstOf(lut, same, i);
      if start < |lut| {
        if lut[start].kind == SingleByteRange {
          lut := lut[..start] + lut[start + 1..];
        } else {
          lut := lut[..start] + lut[start + 2..];
        }
        count := count - 1;
        return true;
      }
      return false;
    }

    function GetEntry(addr: Word64): T
      reads this
    {
      if count == 0 then nullEntry else Lookup(lut, nullEntry, addr)
    }

    method Validate() returns (ok: bool)
      ensures ok <==> Accepts(lut, nullEntry, same, 0, false)
    {
      var mapped, k := false, 0;
      while k < |lut|
        invariant k <= |lut|
        invariant Accepts(lut, nullEntry, same, 0, false) <==> Accepts(lut, nullEntry, same, k, mapped)
      {
        match lut[k].kind {
          case SingleByteRange =>
            if !same(lut[k].index, nullEntry) && mapped { return false; }
          case BeginRange =>
            if !same(lut[k].index, nullEntry) {
              if mapped { return false; }
              mapped := true;
            }
          case EndRange =>
            if !mapped { return false; }
            mapped := false;
        }
        k := k + 1;
      }
      return true;
    }
  }

  // ---------------------------------------------------------------------------
  // Tables as sets of ranges

  ghost predicate EndOf<T>(n: Node<T>, r: Range<T>) {
    if r.first == r.last then n == Node(r.first, r.index, SingleByteRange)
    else n == Node(r.first, r.index, BeginRange) || n == Node(r.last, r.index, EndRange)
  }

  ghost predicate Owned<T>(n: Node<T>, rs: set<Range<T>>) {
    exists r :: r in rs && EndOf(n, r)
  }

  predicate Touches<T>(r: Range<T>, q: Range<T>) {
    r.first <= q.last && q.first <= r.last
  }

  predicate SharesEnd<T>(r: Range<T>, q: Range<T>) {
    r.first == q.first || r.first == q.last || r.last == q.first || r.last == q.last
  }

  predicate Covers<T>(r: Range<T>, addr: Word64) {
    r.first <= addr <= r.last
  }

  /** The range at an address, found by looking at all of them. */
  ghost function FindRange<T>(rs: set<Range<T>>, addr: int): (r: Option<Range<T>>)
    ensures r.Some? ==> r.value in rs && r.value.first <= addr <= r.value.last
    ensures r.None? ==> forall q :: q in rs ==> !(q.first <= addr <= q.last)
  {
    if exists r :: r in rs && r.first <= addr <= r.last then
      var r :| r in rs && r.first <= addr <= r.last;
      Some(r)
    else None
  }

  ghost predicate Disjoint<T>(rs: set<Range<T>>) {
    forall r, q :: r in rs && q in rs && r != q ==> !Touches(r, q)
  }

  ghost predicate Stored<T>(lut: seq<Node<T>>, r: Range<T>) {
    if r.first == r.last then Node(r.first, r.index, SingleByteRange) in lut
    else Node(r.first, r.index, BeginRange) in lut && Node(r.last, r.index, EndRange) in lut
  }

  /** The nodes are exactly the end points of the ranges, and no end point is stored twice. */
  ghost predicate Holds<T>(lut: seq<Node<T>>, rs: set<Range<T>>) {
    && (forall r :: r in rs ==> r.first <= r.last && Stored(lut, r))
    && (forall n {:trigger Owned(n, rs)} :: n in lut ==> Owned(n, rs))
    && (forall r, q :: r in rs && q in rs && r != q ==> !SharesEnd(r, q))
  }

  ghost predicate Represents<T>(lut: seq<Node<T>>, rs: set<Range<T>>) {
    Sorted(lut) && Holds(lut, rs)
  }

  ghost predicate NoNull<T>(rs: set<Range<T>>, nullEntry: T, same: (T, T) -> bool) {
    forall r :: r in rs ==> !same(r.index, nullEntry)
  }

  function Bound<T>(lut: seq<Node<T>>, k: nat): nat {
    if k < |lut| then lut[k].addr else TWO64
  }

  /** The range begins before position k and ends at or after it. */
  predicate Spans<T>(lut: seq<Node<T>>, r: Range<T>, k: nat) {
    r.first < Bound(lut, k) <= r.last
  }

  lemma EndsAreNodes<T>(lut: seq<Node<T>>, rs: set<Range<T>>, r: Range<T>)
    requires Represents(lut, rs) && r in rs
    ensures exists i :: 0 <= i < |lut| && lut[i].addr == r.first
    ensures exists i :: 0 <= i < |lut| && lut[i].addr == r.last
  {
  }

  /** No end point lies strictly between two neighbouring nodes. */
  lemma NoEndBetween<T>(lut: seq<Node<T>>, rs: set<Range<T>>, r: Range<T>, k: nat)
    requires Represents(lut, rs) && r in rs && k < |lut|
    ensures r.first < Bound(lut, k + 1) <==> r.first <= lut[k].addr
    ensures r.last < Bound(lut, k + 1) <==> r.last <= lut[k].addr
  {
    EndsAreNodes(lut, rs, r);
  }

  /** How the spanning ranges change at position k, a node of r. */
  lemma SpanStep<T>(lut: seq<Node<T>>, rs: set<Range<T>>, k: nat, r: Range<T>, q: Range<T>)
    requires Represents(lut, rs) && k < |lut| && r in rs && q in rs && EndOf(lut[k], r)
    ensures q.first < Bound(lut, k + 1) <==> q.first < Bound(lut, k) || q == r
    ensures Spans(lut, q, k + 1) <==> if q == r then lut[k].kind == BeginRange else Spans(lut, q, k)
    ensures lut[k].kind == EndRange ==> Spans(lut, r, k)
    ensures lut[k].kind != EndRange && q != r && q.first < Bound(lut, k) ==> (Touches(q, r) <==> Spans(lut, q, k))
  {
    NoEndBetween(lut, rs, q, k);
    NoEndBetween(lut, rs, r, k);
    assert q != r ==> !SharesEnd(q, r);
  }

  /** Of the ranges begun before position k, at most one is still open, and no two overlap. */
  ghost predicate DisjointUpTo<T>(lut: seq<Node<T>>, rs: set<Range<T>>, k: nat, open: Option<Range<T>>) {
    && (open.Some? ==> open.value in rs && Spans(lut, open.value, k))
    && (forall q :: q in rs && Spans(lut, q, k) ==> open == Some(q))
    && (forall r, q :: r in rs && q in rs && r != q && r.first < Bound(lut, k) && q.first < Bound(lut, k) ==>
      !Touches(r, q))
  }

  lemma StepStaysDisjoint<T>(lut: seq<Node<T>>, rs: set<Range<T>>, k: nat, r: Range<T>, open: Option<Range<T>>)
    requires Represents(lut, rs) && k < |lut| && r in rs && EndOf(lut[k], r)
    requires DisjointUpTo(lut, rs, k, open) && (lut[k].kind != EndRange ==> open.None?)
    ensures DisjointUpTo(lut, rs, k + 1, if lut[k].kind == BeginRange then Some(r) else None)
  {
    forall q | q in rs
      ensures q.first < Bound(lut, k + 1) ==> q.first < Bound(lut, k) || q == r
      ensures Spans(lut, q, k + 1) <==> q == r && lut[k].kind == BeginRange
      ensures q != r && q.first < Bound(lut, k) ==> !Touches(q, r)
    {
      SpanStep(lut, rs, k, r, q);
    }
  }

  /** The scan started at k accepts exactly when the ranges are disjoint, given that those begun before k are. */
  lemma {:induction false} AcceptsFrom<T>(lut: seq<Node<T>>, rs: set<Range<T>>, nullEntry: T, same: (T, T) -> bool,
                                          k: nat, open: Option<Range<T>>)
    requires Represents(lut, rs) && NoNull(rs, nullEntry, same) && k <= |lut|
    requires DisjointUpTo(lut, rs, k, open)
    ensures Accepts(lut, nullEntry, same, k, open.Some?) <==> Disjoint(rs)
    decreases |lut| - k
  {
    hide Sorted;
    if k < |lut| {
      assert Owned(lut[k], rs);
      var r :| r in rs && EndOf(lut[k], r);
      SpanStep(lut, rs, k, r, r);
      if lut[k].kind != EndRange && open.Some? {
        SpanStep(lut, rs, k, r, open.value);
        assert Touches(open.value, r);
      } else {
        StepStaysDisjoint(lut, rs, k, r, open);
        AcceptsFrom(lut, rs, nullEntry, same, k + 1, if lut[k].kind == BeginRange then Some(r) else None);
      }
    }
  }

  /** validate rejects exactly the overlaps, whenever no end point is stored twice. */
  lemma ValidateIffDisjoint<T>(lut: seq<Node<T>>, rs: set<Range<T>>, nullEntry: T, same: (T, T) -> bool)
    requires Represents(lut, rs) && NoNull(rs, nullEntry, same)
    ensures Accepts(lut, nullEntry, same, 0, false) <==> Disjoint(rs)
  {
    forall r | r in rs ensures Bound(lut, 0) <= r.first { EndsAreNodes(lut, rs, r); }
    AcceptsFrom(lut, rs, nullEntry, same, 0, None);
  }

  lemma NodeInside<T>(lut: seq<Node<T>>, rs: set<Range<T>>, r: Range<T>, k: nat)
    requires Represents(lut, rs) && Disjoint(rs) && r in rs && k < |lut|
    ensures r.first <= lut[k].addr <= r.last <==> EndOf(lut[k], r)
  {
    assert Owned(lut[k], rs);
    var q :| q in rs && EndOf(lut[k], q);
    assert q != r ==> !Touches(q, r);
  }

  /** The lower_bound lookup is a linear scan of the ranges, for every address. */
  lemma LookupIsScan<T>(lut: seq<Node<T>>, rs: set<Range<T>>, nullEntry: T, addr: Word64)
    requires Represents(lut, rs) && Disjoint(rs)
    ensures forall r :: r in rs && Covers(r, addr) ==> Lookup(lut, nullEntry, addr) == r.index
    ensures (forall r :: r in rs ==> !Covers(r, addr)) ==> Lookup(lut, nullEntry, addr) == nullEntry
  {
    var k := LowerBound(lut, addr);
    forall r | r in rs && Covers(r, addr) ensures Lookup(lut, nullEntry, addr) == r.index {
      EndsAreNodes(lut, rs, r);
      NodeInside(lut, rs, r, k);
    }
    if k < |lut| {
      assert Owned(lut[k], rs);
      var r :| r in rs && EndOf(lut[k], r);
      EndsAreNodes(lut, rs, r);
    }
  }

  // ---------------------------------------------------------------------------
  // Runs of additions and removals

  lemma FreshEnds<T>(lut: seq<Node<T>>, rs: set<Range<T>>, r: Range<T>, n: Node<T>)
    requires Represents(lut, rs) && n in lut
    requires forall q :: q in rs ==> !SharesEnd(r, q)
    ensures n.addr != r.first && n.addr != r.last
  {
    assert Owned(n, rs);
    var q :| q in rs && EndOf(n, q);
    assert !SharesEnd(r, q);
  }

  lemma LastAddress(base: Word64, size: Word64, last: Word64)
    requires 1 <= size && base + size - 1 == last
    ensures Sub64(Add64(base, size), 1) == last
  {
  }

  lemma InsertNodes<T>(lut: seq<Node<T>>, rs: set<Range<T>>, r: Range<T>, size: Word64, n: Node<T>)
    requires Represents(lut, rs) && 1 <= size && r.first + size - 1 == r.last
    requires forall q :: q in rs ==> !SharesEnd(r, q)
    ensures n in Insert(lut, r.index, r.first, size) <==> n in lut || EndOf(n, r)
  {
    if n in lut { FreshEnds(lut, rs, r, n); }
    LastAddress(r.first, size, r.last);
    var b := Node(r.first, r.index, if size > 1 then BeginRange else SingleByteRange);
    PutNodes(lut, b, n);
    PutNodes(Put(lut, b), Node(r.last, r.index, EndRange), n);
  }

  lemma OwnedIn<T>(n: Node<T>, rs: set<Range<T>>, more: set<Range<T>>)
    requires Owned(n, rs) && rs <= more
    ensures Owned(n, more)
  {
    var q :| q in rs && EndOf(n, q);
    assert q in more;
  }

  /** Adding a range whose end points are new keeps the table exact. */
  lemma AddDistinct<T>(lut: seq<Node<T>>, rs: set<Range<T>>, nullEntry: T, same: (T, T) -> bool, r: Range<T>,
                       size: Word64)
    requires Represents(lut, rs) && 1 <= size && r.first + size - 1 == r.last
    requires forall q :: q in rs ==> !SharesEnd(r, q)
    ensures AddOutcome(lut, nullEntry, same, r.first, size) == Added
    ensures Represents(Insert(lut, r.index, r.first, size), rs + {r})
  {
    LastAddress(r.first, size, r.last);
    var k := LowerBound(lut, r.first);
    if k < |lut| { FreshEnds(lut, rs, r, lut[k]); }
    var out := Insert(lut, r.index, r.first, size);
    forall n ensures n in out <==> n in lut || EndOf(n, r) { InsertNodes(lut, rs, r, size, n); }
    HoldsMore(lut, out, rs, r);
  }

  lemma HoldsMore<T>(lut: seq<Node<T>>, out: seq<Node<T>>, rs: set<Range<T>>, r: Range<T>)
    requires Holds(lut, rs) && r.first <= r.last
    requires forall q :: q in rs ==> !SharesEnd(r, q)
    requires forall n :: n in out <==> n in lut || EndOf(n, r)
    ensures Holds(out, rs + {r})
  {
    forall n | n in out ensures Owned(n, rs + {r}) {
      if n in lut {
        assert Owned(n, rs);
        OwnedIn(n, rs, rs + {r});
      } else {
        assert r in rs + {r} && EndOf(n, r);
      }
    }
  }

  // ---------------------------------------------------------------------------
  // Shared end points

  /** The scan that accepts a table accepts each rest of it, with some range open or none. */
  lemma {:induction false} AcceptsRest<T>(lut: seq<Node<T>>, nullEntry: T, same: (T, T) -> bool, i: nat)
    returns (mapped: bool)
    requires Accepts(lut, nullEntry, same, 0, false) && i <= |lut|
    ensures Accepts(lut, nullEntry, same, i, mapped)
  {
    if i == 0 { return false; }
    var before := AcceptsRest(lut, nullEntry, same, i - 1);
    return match lut[i - 1].kind
      case SingleByteRange => before
      case BeginRange => if same(lut[i - 1].index, nullEntry) then before else true
      case EndRange => false;
  }

  /** In an accepted table an end comes right behind its begin. */
  lemma NeighbourKinds<T>(lut: seq<Node<T>>, nullEntry: T, same: (T, T) -> bool, i: nat)
    requires Accepts(lut, nullEntry, same, 0, false) && i + 1 < |lut|
    requires !same(lut[i].index, nullEntry) && !same(lut[i + 1].index, nullEntry)
    ensures lut[i].kind == BeginRange <==> lut[i + 1].kind == EndRange
  {
    var mapped := AcceptsRest(lut, nullEntry, same, i);
  }

  /** An addition that addEntry does not refuse, to a table of disjoint ranges. */
  ghost predicate Enters<T>(lut: seq<Node<T>>, rs: set<Range<T>>, nullEntry: T, same: (T, T) -> bool, r: Range<T>,
                            size: Word64)
  {
    && Represents(lut, rs) && Disjoint(rs) && NoNull(rs, nullEntry, same) && !same(r.index, nullEntry)
    && 1 <= size && r.first + size - 1 == r.last && AddOutcome(lut, nullEntry, same, r.first, size) == Added
  }

  /** What it makes of the table: out has the nodes of r, and those of rs that are not at the last address of r. */
  ghost predicate Entered<T>(out: seq<Node<T>>, lut: seq<Node<T>>, rs: set<Range<T>>, nullEntry: T,
                             same: (T, T) -> bool, r: Range<T>)
  {
    && Represents(lut, rs) && Disjoint(rs) && Sorted(out) && r.first <= r.last && Stored(out, r)
    && (forall n :: n in out ==> EndOf(n, r) || (n in lut && n.addr != r.last))
    && (forall n :: n in lut && n.addr != r.last ==> n in out)
    && (forall n :: n in lut ==> n.addr != r.first)
    && (forall n :: n in out ==> !same(n.index, nullEntry))
  }

  lemma EntersNode<T>(lut: seq<Node<T>>, rs: set<Range<T>>, nullEntry: T, same: (T, T) -> bool, r: Range<T>,
                      size: Word64, n: Node<T>)
    requires Enters(lut, rs, nullEntry, same, r, size)
    ensures n in Insert(lut, r.index, r.first, size) <==> EndOf(n, r) || (n in lut && n.addr != r.last)
    ensures n in lut ==> n.addr != r.first && !same(n.index, nullEntry)
  {
    hide Holds, Disjoint;
    LastAddress(r.first, size, r.last);
    var b := Node(r.first, r.index, if size > 1 then BeginRange else SingleByteRange);
    PutNodes(lut, b, n);
    PutNodes(Put(lut, b), Node(r.last, r.index, EndRange), n);
    if n in lut { var q := OwnerOf(lut, rs, n); }
  }

  lemma OwnerOf<T>(lut: seq<Node<T>>, rs: set<Range<T>>, n: Node<T>) returns (q: Range<T>)
    requires Represents(lut, rs) && n in lut
    ensures q in rs && EndOf(n, q) && q.first <= q.last
  {
    assert Owned(n, rs);
    q :| q in rs && EndOf(n, q);
  }

  lemma EntersAsEntered<T>(lut: seq<Node<T>>, rs: set<Range<T>>, nullEntry: T, same: (T, T) -> bool, r: Range<T>,
                           size: Word64)
    requires Enters(lut, rs, nullEntry, same, r, size)
    ensures Entered(Insert(lut, r.index, r.first, size), lut, rs, nullEntry, same, r)
  {
    hide AddOutcome, Insert;
    var out := Insert(lut, r.index, r.first, size);
    EntersNode(lut, rs, nullEntry, same, r, size,
      Node(r.first, r.index, if size > 1 then BeginRange else SingleByteRange));
    EntersNode(lut, rs, nullEntry, same, r, size, Node(r.last, r.index, EndRange));
    forall n | n in out ensures (EndOf(n, r) || (n in lut && n.addr != r.last)) && !same(n.index, nullEntry) {
      EntersNode(lut, rs, nullEntry, same, r, size, n);
    }
    forall n | n in lut ensures n.addr != r.first && (n.addr != r.last ==> n in out) {
      EntersNode(lut, rs, nullEntry, same, r, size, n);
    }
  }

  /** A range of the table keeps its nodes, unless they are at the last address of the new one. */
  lemma KeepsNodes<T>(out: seq<Node<T>>, lut: seq<Node<T>>, rs: set<Range<T>>, nullEntry: T, same: (T, T) -> bool,
                      r: Range<T>, q: Range<T>)
    requires Entered(out, lut, rs, nullEntry, same, r) && q in rs
    ensures q.first <= q.last && q.first != r.first && q.last != r.first && Sorted(out) && r.first <= r.last
    ensures q.first != r.last && q.first < q.last ==> Node(q.first, q.index, BeginRange) in out
    ensures q.last != r.last && q.first < q.last ==> Node(q.last, q.index, EndRange) in out
    ensures q.last != r.last && q.first == q.last ==> Node(q.first, q.index, SingleByteRange) in out
    ensures r.first < r.last ==> Node(r.first, r.index, BeginRange) in out && Node(r.last, r.index, EndRange) in out
    ensures r.first == r.last ==> Node(r.first, r.index, SingleByteRange) in out
  {
    hide Disjoint, Sorted;
    assert Stored(lut, q);
  }

  /** A node that is not the new range's belongs to one of the table's, and lies strictly inside none. */
  lemma OtherNode<T>(out: seq<Node<T>>, lut: seq<Node<T>>, rs: set<Range<T>>, nullEntry: T, same: (T, T) -> bool,
                     r: Range<T>, n: Node<T>) returns (p: Range<T>)
    requires Entered(out, lut, rs, nullEntry, same, r) && n in out && !EndOf(n, r)
    ensures p in rs && EndOf(n, p) && forall q :: q in rs ==> !(q.first < n.addr < q.last)
  {
    hide Holds, Disjoint, Sorted;
    p := OwnerOf(lut, rs, n);
    forall q | q in rs ensures !(q.first < n.addr < q.last) {
      OneOwner(rs, p, q, n);
    }
  }

  lemma OneOwner<T>(rs: set<Range<T>>, p: Range<T>, q: Range<T>, n: Node<T>)
    requires Disjoint(rs) && p in rs && q in rs && EndOf(n, p) && p.first <= p.last
    ensures !(q.first < n.addr < q.last)
  {
    assert p != q ==> !Touches(p, q);
  }

  lemma EnteredKinds<T>(out: seq<Node<T>>, lut: seq<Node<T>>, rs: set<Range<T>>, nullEntry: T, same: (T, T) -> bool,
                        r: Range<T>, i: nat)
    requires Entered(out, lut, rs, nullEntry, same, r) && Accepts(out, nullEntry, same, 0, false) && i + 1 < |out|
    ensures out[i].kind == BeginRange <==> out[i + 1].kind == EndRange
  {
    hide Represents, Disjoint, Sorted, Accepts;
    NeighbourKinds(out, nullEntry, same, i);
  }

  /** validate rejects an addition that begins strictly inside a range. */
  lemma BeginsInside<T>(out: seq<Node<T>>, lut: seq<Node<T>>, rs: set<Range<T>>, nullEntry: T, same: (T, T) -> bool,
                        r: Range<T>, q: Range<T>)
    requires Entered(out, lut, rs, nullEntry, same, r) && q in rs && q.first < r.first < q.last
    requires q.first != r.last
    ensures !Accepts(out, nullEntry, same, 0, false)
  {
    hide Entered, Accepts;
    if Accepts(out, nullEntry, same, 0, false) {
      var b := Node(q.first, q.index, BeginRange);
      var n := Node(r.first, r.index, if r.first < r.last then BeginRange else SingleByteRange);
      KeepsNodes(out, lut, rs, nullEntry, same, r, q);
      var i :| 0 <= i < |out| && out[i] == b;
      var j :| 0 <= j < |out| && out[j] == n;
      if out[i + 1].addr < r.first {
        var p := OtherNode(out, lut, rs, nullEntry, same, r, out[i + 1]);
      }
      EnteredKinds(out, lut, rs, nullEntry, same, r, i);
    }
  }

  /** validate rejects an addition that ends where a longer range begins. */
  lemma EndsOnBegin<T>(out: seq<Node<T>>, lut: seq<Node<T>>, rs: set<Range<T>>, nullEntry: T, same: (T, T) -> bool,
                       r: Range<T>, q: Range<T>)
    requires Entered(out, lut, rs, nullEntry, same, r) && q in rs && r.first < r.last == q.first < q.last
    ensures !Accepts(out, nullEntry, same, 0, false)
  {
    hide Entered, Accepts;
    if Accepts(out, nullEntry, same, 0, false) {
      var e, n := Node(q.last, q.index, EndRange), Node(r.last, r.index, EndRange);
      KeepsNodes(out, lut, rs, nullEntry, same, r, q);
      var i :| 0 <= i < |out| && out[i] == e;
      var j :| 0 <= j < |out| && out[j] == n;
      if r.last < out[i - 1].addr {
        var p := OtherNode(out, lut, rs, nullEntry, same, r, out[i - 1]);
      }
      EnteredKinds(out, lut, rs, nullEntry, same, r, i - 1);
    }
  }

  /** validate rejects an addition that ends where a longer range ends. */
  lemma EndsOnEnd<T>(out: seq<Node<T>>, lut: seq<Node<T>>, rs: set<Range<T>>, nullEntry: T, same: (T, T) -> bool,
                     r: Range<T>, q: Range<T>)
    requires Entered(out, lut, rs, nullEntry, same, r) && q in rs && r.first < r.last == q.last && q.first < q.last
    ensures !Accepts(out, nullEntry, same, 0, false)
  {
    hide Entered, Accepts;
    KeepsNodes(out, lut, rs, nullEntry, same, r, q);
    if q.first < r.first {
      BeginsInside(out, lut, rs, nullEntry, same, r, q);
    } else if Accepts(out, nullEntry, same, 0, false) {
      var b, n := Node(r.first, r.index, BeginRange), Node(q.first, q.index, BeginRange);
      var i :| 0 <= i < |out| && out[i] == b;
      var j :| 0 <= j < |out| && out[j] == n;
      EnteredKinds(out, lut, rs, nullEntry, same, r, i);
      var p := OtherNode(out, lut, rs, nullEntry, same, r, out[i + 1]);
      KeepsNodes(out, lut, rs, nullEntry, same, r, p);
      assert forall m :: 0 <= m < |out| ==> out[m].addr <= r.first || out[i + 1].addr <= out[m].addr;
      BeginsInside(out, lut, rs, nullEntry, same, r, p);
    }
  }

  /** What an accepted addition leaves in the table: a single byte at its last address is replaced. */
  ghost function Survivors<T>(rs: set<Range<T>>, r: Range<T>): set<Range<T>> {
    (set q | q in rs && !(q.first == q.last == r.last)) + {r}
  }

  lemma EnteredFacts<T>(out: seq<Node<T>>, lut: seq<Node<T>>, rs: set<Range<T>>, nullEntry: T, same: (T, T) -> bool,
                        r: Range<T>)
    requires Entered(out, lut, rs, nullEntry, same, r)
    ensures Represents(lut, rs) && Disjoint(rs) && Sorted(out) && r.first <= r.last && Stored(out, r)
  {
    hide Holds, Disjoint, Sorted;
  }

  lemma EnteredNode<T>(out: seq<Node<T>>, lut: seq<Node<T>>, rs: set<Range<T>>, nullEntry: T, same: (T, T) -> bool,
                       r: Range<T>, n: Node<T>)
    requires Entered(out, lut, rs, nullEntry, same, r)
    ensures n in out <==> EndOf(n, r) || (n in lut && n.addr != r.last)
  {
    hide Holds, Disjoint, Sorted;
  }

  lemma SurvivorOwns<T>(out: seq<Node<T>>, lut: seq<Node<T>>, rs: set<Range<T>>, nullEntry: T, same: (T, T) -> bool,
                        r: Range<T>, n: Node<T>)
    requires Entered(out, lut, rs, nullEntry, same, r) && n in out
    ensures Owned(n, Survivors(rs, r))
  {
    hide Entered;
    if EndOf(n, r) {
      assert r in Survivors(rs, r);
    } else {
      EnteredNode(out, lut, rs, nullEntry, same, r, n);
      var q := OtherNode(out, lut, rs, nullEntry, same, r, n);
      assert q in Survivors(rs, r);
    }
  }

  lemma SurvivorsHeld<T>(out: seq<Node<T>>, lut: seq<Node<T>>, rs: set<Range<T>>, nullEntry: T, same: (T, T) -> bool,
                         r: Range<T>)
    requires Entered(out, lut, rs, nullEntry, same, r)
    requires forall q :: q in rs && (q.first == r.last || q.last == r.last) ==> q.first == q.last
    ensures Represents(out, Survivors(rs, r))
  {
    hide Entered, Disjoint, Owned;
    var more := Survivors(rs, r);
    EnteredFacts(out, lut, rs, nullEntry, same, r);
    forall q | q in more && q != r ensures q.first <= q.last && Stored(out, q) && !SharesEnd(r, q) {
      KeepsNodes(out, lut, rs, nullEntry, same, r, q);
    }
    forall n | n in out ensures Owned(n, more) {
      SurvivorOwns(out, lut, rs, nullEntry, same, r, n);
    }
  }

  /** validate accepts an addition to a valid table exactly when the only range that it meets is a single byte at its
    own last address, or there is none; such a byte it loses. */
  lemma ValidateAddition<T>(lut: seq<Node<T>>, rs: set<Range<T>>, nullEntry: T, same: (T, T) -> bool, r: Range<T>,
                            size: Word64)
    requires Enters(lut, rs, nullEntry, same, r, size)
    ensures Accepts(Insert(lut, r.index, r.first, size), nullEntry, same, 0, false) <==>
      forall q :: q in rs && Touches(q, r) ==> q.first == q.last == r.last
    ensures Accepts(Insert(lut, r.index, r.first, size), nullEntry, same, 0, false) ==>
      Represents(Insert(lut, r.index, r.first, size), Survivors(rs, r)) && Disjoint(Survivors(rs, r))
  {
    hide Entered, Accepts, AddOutcome, Holds, Sorted, Disjoint, Insert;
    EntersAsEntered(lut, rs, nullEntry, same, r, size);
    var out, more := Insert(lut, r.index, r.first, size), Survivors(rs, r);
    if q :| q in rs && (q.first == r.last || q.last == r.last) && q.first != q.last {
      KeepsNodes(out, lut, rs, nullEntry, same, r, q);
      if q.first == r.last {
        EndsOnBegin(out, lut, rs, nullEntry, same, r, q);
      } else {
        EndsOnEnd(out, lut, rs, nullEntry, same, r, q);
      }
    } else {
      SurvivorsHeld(out, lut, rs, nullEntry, same, r);
      ValidateIffDisjoint(out, more, nullEntry, same);
      SurvivorsDisjoint(rs, r);
    }
  }

  lemma SurvivorsDisjoint<T>(rs: set<Range<T>>, r: Range<T>)
    requires Disjoint(rs)
    ensures Disjoint(Survivors(rs, r)) <==>
      forall q :: q in rs && q != r && Touches(q, r) ==> q.first == q.last == r.last
  {
    var more := Survivors(rs, r);
    forall q | q in rs && q != r && Touches(q, r) && !(q.first == q.last == r.last) ensures !Disjoint(more) {
      assert q in more && r in more;
    }
  }

  predicate SameInt(a: int, b: int) { a == b }

  lemma FirstByte(r: Range<int>)
    requires r.first == r.last && r.index != 0
    ensures Insert([], r.index, r.first, 1) == [Node(r.first, r.index, SingleByteRange)]
    ensures AddOutcome([], 0, SameInt, r.first, 1) == Added
    ensures Represents(Insert([], r.index, r.first, 1), {r}) && NoNull({r}, 0, SameInt) && Disjoint({r})
  {
    var n := Node(r.first, r.index, SingleByteRange);
    assert EndOf(n, r) && Owned(n, {r});
  }

  /** The first addition, a single byte, is swallowed by the second, which ends on it: both are accepted, and validate
    does not notice that they overlap. */
  lemma SwallowedByte()
    ensures var table := Insert<int>([], 1, 5, 1);
      && AddOutcome([], 0, SameInt, 5, 1) == Added && AddOutcome(table, 0, SameInt, 0, 6) == Added
      && Accepts(Insert(table, 2, 0, 6), 0, SameInt, 0, false) && Touches(Range(5, 5, 1), Range(0, 5, 2))
  {
    hide Accepts, Insert, Survivors;
    FirstByte(Range(5, 5, 1));
    ValidateAddition(Insert([], 1, 5, 1), {Range(5, 5, 1)}, 0, SameInt, Range(0, 5, 2), 6);
  }

  /** The size that addEntry is given for a range. */
  function Size<T>(r: Range<T>): (size: Word64)
    ensures IsRange(r) ==> 1 <= size == r.last - r.first + 1
  {
    Add64(Sub64(r.last, r.first), 1)
  }

  predicate IsRange<T>(r: Range<T>) {
    r.first <= r.last && r.last - r.first + 1 < TWO64
  }

  /** The table that some additions lead to, when none is refused. */
  function TableOf<T>(adds: seq<Range<T>>): (lut: seq<Node<T>>)
    ensures Sorted(lut)
  {
    if adds == [] then [] else
      var r := adds[|adds| - 1];
      Insert(TableOf(adds[..|adds| - 1]), r.index, r.first, Size(r))
  }

  ghost function AllOf<T>(adds: seq<Range<T>>): set<Range<T>> {
    if adds == [] then {} else AllOf(adds[..|adds| - 1]) + {adds[|adds| - 1]}
  }

  ghost predicate IsAccepted<T>(lut: seq<Node<T>>, nullEntry: T, same: (T, T) -> bool, r: Range<T>) {
    && IsRange(r) && !same(r.index, nullEntry)
    && AddOutcome(lut, nullEntry, same, r.first, Size(r)) == Added
  }

  /** Additions that addEntry accepts, one after the other. */
  ghost predicate Accepted<T>(adds: seq<Range<T>>, nullEntry: T, same: (T, T) -> bool) {
    adds != [] ==>
      var front := adds[..|adds| - 1];
      Accepted(front, nullEntry, same) && IsAccepted(TableOf(front), nullEntry, same, adds[|adds| - 1])
  }

  /** No addition ends on an address that is stored already. */
  ghost predicate LastsAreNew<T>(adds: seq<Range<T>>) {
    adds != [] ==>
      var front := adds[..|adds| - 1];
      LastsAreNew(front) && forall n :: n in TableOf(front) ==> n.addr != adds[|adds| - 1].last
  }

  lemma NewEnds<T>(lut: seq<Node<T>>, rs: set<Range<T>>, nullEntry: T, same: (T, T) -> bool, r: Range<T>, q: Range<T>)
    requires Represents(lut, rs) && NoNull(rs, nullEntry, same) && q in rs && IsAccepted(lut, nullEntry, same, r)
    requires forall n :: n in lut ==> n.addr != r.last
    ensures !SharesEnd(r, q)
  {
    EndsAreNodes(lut, rs, q);
    var k := LowerBound(lut, r.first);
    if k < |lut| && lut[k].addr == r.first { var p := OwnerOf(lut, rs, lut[k]); }
  }

  lemma AddNew<T>(lut: seq<Node<T>>, rs: set<Range<T>>, nullEntry: T, same: (T, T) -> bool, r: Range<T>)
    requires Represents(lut, rs) && NoNull(rs, nullEntry, same) && IsAccepted(lut, nullEntry, same, r)
    requires forall n :: n in lut ==> n.addr != r.last
    ensures Represents(Insert(lut, r.index, r.first, Size(r)), rs + {r}) && NoNull(rs + {r}, nullEntry, same)
  {
    hide Holds, AddOutcome, Insert;
    forall q | q in rs ensures !SharesEnd(r, q) {
      NewEnds(lut, rs, nullEntry, same, r, q);
    }
    AddDistinct(lut, rs, nullEntry, same, r, Size(r));
  }

  lemma {:induction false} RunRepresents<T>(adds: seq<Range<T>>, nullEntry: T, same: (T, T) -> bool)
    requires Accepted(adds, nullEntry, same) && LastsAreNew(adds)
    ensures Represents(TableOf(adds), AllOf(adds)) && NoNull(AllOf(adds), nullEntry, same)
  {
    hide AddOutcome, Insert;
    if adds != [] {
      var n := |adds| - 1;
      RunRepresents(adds[..n], nullEntry, same);
      AddNew(TableOf(adds[..n]), AllOf(adds[..n]), nullEntry, same, adds[n]);
    }
  }

  /** After additions whose last addresses are not stored yet, validate is right: it accepts exactly if no two
    overlap. */
  lemma ValidateAfterRun<T>(adds: seq<Range<T>>, nullEntry: T, same: (T, T) -> bool)
    requires Accepted(adds, nullEntry, same) && LastsAreNew(adds)
    ensures Accepts(TableOf(adds), nullEntry, same, 0, false) <==> Disjoint(AllOf(adds))
  {
    hide TableOf, AllOf, Accepts;
    RunRepresents(adds, nullEntry, same);
    ValidateIffDisjoint(TableOf(adds), AllOf(adds), nullEntry, same);
  }

  lemma StoredLastTouches<T>(lut: seq<Node<T>>, rs: set<Range<T>>, nullEntry: T, same: (T, T) -> bool, r: Range<T>,
                             n: Node<T>)
    requires Represents(lut, rs) && NoNull(rs, nullEntry, same) && IsAccepted(lut, nullEntry, same, r)
    requires n in lut && n.addr == r.last
    ensures !Disjoint(rs + {r})
  {
    NotStoredYet(lut, rs, nullEntry, same, r);
    var q := OwnerOf(lut, rs, n);
    assert q in rs + {r} && r in rs + {r} && Touches(q, r);
  }

  /** Additions that overlap nowhere never end on a stored address. */
  lemma {:induction false} DisjointLastsAreNew<T>(adds: seq<Range<T>>, nullEntry: T, same: (T, T) -> bool)
    requires Accepted(adds, nullEntry, same) && Disjoint(AllOf(adds))
    ensures LastsAreNew(adds)
  {
    hide AddOutcome, Insert, TableOf;
    if adds != [] {
      var n := |adds| - 1;
      var front := adds[..n];
      assert Disjoint(AllOf(front));
      DisjointLastsAreNew(front, nullEntry, same);
      RunRepresents(front, nullEntry, same);
      forall m | m in TableOf(front) ensures m.addr != adds[n].last {
        if m.addr == adds[n].last {
          StoredLastTouches(TableOf(front), AllOf(front), nullEntry, same, adds[n], m);
        }
      }
    }
  }

  /** After any additions that addEntry accepts no two ranges overlap exactly if validate accepts and none of them ended
    on an address that was stored already.  So validate is wrong exactly when it accepts although one did. */
  lemma DisjointIffValid<T>(adds: seq<Range<T>>, nullEntry: T, same: (T, T) -> bool)
    requires Accepted(adds, nullEntry, same)
    ensures Disjoint(AllOf(adds)) <==> LastsAreNew(adds) && Accepts(TableOf(adds), nullEntry, same, 0, false)
  {
    hide Accepted, LastsAreNew, TableOf, AllOf, Accepts, Disjoint;
    if Disjoint(AllOf(adds)) { DisjointLastsAreNew(adds, nullEntry, same); }
    if LastsAreNew(adds) { ValidateAfterRun(adds, nullEntry, same); }
  }

  lemma PutAt<T>(lut: seq<Node<T>>, n: Node<T>, k: nat)
    requires Sorted(lut) && k <= |lut| && (k > 0 ==> lut[k - 1].addr < n.addr) && (k < |lut| ==> n.addr <= lut[k].addr)
    ensures LowerBound(lut, n.addr) == k
    ensures Put(lut, n) == lut[..k] + [n] + lut[if k < |lut| && lut[k].addr == n.addr then k + 1 else k..]
  {
  }

  lemma AcceptedNext<T>(adds: seq<Range<T>>, nullEntry: T, same: (T, T) -> bool, r: Range<T>)
    requires Accepted(adds, nullEntry, same) && IsAccepted(TableOf(adds), nullEntry, same, r)
    ensures Accepted(adds + [r], nullEntry, same) && AllOf(adds + [r]) == AllOf(adds) + {r}
    ensures TableOf(adds + [r]) == Insert(TableOf(adds), r.index, r.first, Size(r))
  {
    hide AddOutcome, Insert;
    assert (adds + [r])[..|adds|] == adds;
  }

  /** Three additions, none of a single byte: the second and the third between them overwrite both ends of the first,
    all are accepted, and validate does not notice that the first overlaps the others. */
  lemma SwallowedRange()
    ensures var adds := [Range(5, 10, 1), Range(0, 5, 2), Range(6, 10, 3)];
      && Accepted(adds, 0, SameInt) && Accepts(TableOf(adds), 0, SameInt, 0, false)
      && !Disjoint(AllOf(adds)) && !LastsAreNew(adds)
  {
    hide Accepts, LastsAreNew, Disjoint, Accepted, AllOf, TableOf, Insert, AddOutcome;
    var one, two, three := Range(5, 10, 1), Range(0, 5, 2), Range(6, 10, 3);
    NoAdds();
    FirstTable();
    AcceptedNext([], 0, SameInt, one);
    assert [] + [one] == [one];
    SecondTable();
    AcceptedNext([one], 0, SameInt, two);
    assert [one] + [two] == [one, two];
    ThirdTable();
    AcceptedNext([one, two], 0, SameInt, three);
    var adds := [one, two, three];
    assert [one, two] + [three] == adds;
    OverlapOne(AllOf(adds), one, two);
    DisjointIffValid(adds, 0, SameInt);
  }

  lemma NoAdds()
    ensures Accepted<int>([], 0, SameInt) && AllOf<int>([]) == {} && TableOf<int>([]) == []
  {
  }

  lemma OverlapOne(rs: set<Range<int>>, r: Range<int>, q: Range<int>)
    requires r in rs && q in rs && r != q && Touches(r, q)
    ensures !Disjoint(rs)
  {
  }

  const ONE_RANGE := [Node(5, 1, BeginRange), Node(10, 1, EndRange)]
  const TWO_RANGES := [Node(0, 2, BeginRange), Node(5, 2, EndRange), Node(10, 1, EndRange)]
  const THREE_RANGES := [Node(0, 2, BeginRange), Node(5, 2, EndRange), Node(6, 3, BeginRange), Node(10, 3, EndRange)]

  lemma FirstTable()
    ensures Insert([], 1, 5, 6) == ONE_RANGE && AddOutcome([], 0, SameInt, 5, 6) == Added
  {
    hide Put;
    var b, e := Node(5, 1, BeginRange), Node(10, 1, EndRange);
    PutAt([], b, 0);
    PutAt([b], e, 1);
    assert Put([], b) == [b] && Put([b], e) == [b, e];
  }

  lemma SecondTable()
    ensures Insert(ONE_RANGE, 2, 0, 6) == TWO_RANGES && AddOutcome(ONE_RANGE, 0, SameInt, 0, 6) == Added
  {
    hide Put, LowerBound;
    var b1, e1, b, e := ONE_RANGE[0], ONE_RANGE[1], Node(0, 2, BeginRange), Node(5, 2, EndRange);
    PutAt([b1, e1], b, 0);
    assert Put([b1, e1], b) == [b, b1, e1];
    PutAt([b, b1, e1], e, 1);
    assert Put([b, b1, e1], e) == [b, e, e1];
  }

  lemma ThirdTable()
    ensures Insert(TWO_RANGES, 3, 6, 5) == THREE_RANGES && AddOutcome(TWO_RANGES, 0, SameInt, 6, 5) == Added
    ensures Accepts(THREE_RANGES, 0, SameInt, 0, false)
  {
    hide Put, LowerBound;
    var b2, e2, e1, b, e := TWO_RANGES[0], TWO_RANGES[1], TWO_RANGES[2], Node(6, 3, BeginRange), Node(10, 3, EndRange);
    PutAt([b2, e2, e1], b, 2);
    assert Put([b2, e2, e1], b) == [b2, e2, b, e1];
    PutAt([b2, e2, b, e1], e, 3);
    assert Put([b2, e2, b, e1], e) == [b2, e2, b, e];
    assert Accepts(THREE_RANGES, 0, SameInt, 4, false) && Accepts(THREE_RANGES, 0, SameInt, 2, false);
  }

  /** What the additions leave in the table, if each is followed by a validate that accepts. */
  ghost function SurvivorsOf<T>(adds: seq<Range<T>>): set<Range<T>> {
    if adds == [] then {} else Survivors(SurvivorsOf(adds[..|adds| - 1]), adds[|adds| - 1])
  }

  ghost predicate Validated<T>(adds: seq<Range<T>>, nullEntry: T, same: (T, T) -> bool) {
    adds != [] ==>
      Validated(adds[..|adds| - 1], nullEntry, same) && Accepts(TableOf(adds), nullEntry, same, 0, false)
  }

  lemma NotStoredYet<T>(lut: seq<Node<T>>, rs: set<Range<T>>, nullEntry: T, same: (T, T) -> bool, r: Range<T>)
    requires Represents(lut, rs) && NoNull(rs, nullEntry, same) && IsAccepted(lut, nullEntry, same, r)
    ensures r !in rs
  {
    if r in rs {
      EndsAreNodes(lut, rs, r);
      var p := OwnerOf(lut, rs, lut[LowerBound(lut, r.first)]);
    }
  }

  lemma SurvivorsComplete<T>(rs: set<Range<T>>, all: set<Range<T>>, r: Range<T>)
    requires rs <= all && r !in rs && r.first <= r.last
    requires Disjoint(rs) && Disjoint(Survivors(rs, r)) && (Disjoint(all) <==> rs == all)
    ensures Disjoint(all + {r}) <==> Survivors(rs, r) == all + {r}
  {
    if Disjoint(all + {r}) {
      assert Disjoint(all);
      forall q | q in rs ensures q in Survivors(rs, r) {
        assert !Touches(q, r);
      }
    }
  }

  /** The table is exact for the ranges that survive, and these are all if and only if no two of all overlap. */
  ghost predicate HoldsSurvivors<T>(lut: seq<Node<T>>, rs: set<Range<T>>, all: set<Range<T>>, nullEntry: T,
                                    same: (T, T) -> bool)
  {
    && Represents(lut, rs) && Disjoint(rs) && NoNull(rs, nullEntry, same) && rs <= all && (Disjoint(all) <==> rs == all)
  }

  lemma AddSurvives<T>(lut: seq<Node<T>>, rs: set<Range<T>>, all: set<Range<T>>, nullEntry: T, same: (T, T) -> bool,
                       r: Range<T>)
    requires HoldsSurvivors(lut, rs, all, nullEntry, same) && IsAccepted(lut, nullEntry, same, r)
    requires Accepts(Insert(lut, r.index, r.first, Size(r)), nullEntry, same, 0, false)
    ensures HoldsSurvivors(Insert(lut, r.index, r.first, Size(r)), Survivors(rs, r), all + {r}, nullEntry, same)
  {
    hide AddOutcome, Accepts, Insert;
    ValidateAddition(lut, rs, nullEntry, same, r, Size(r));
    NotStoredYet(lut, rs, nullEntry, same, r);
    SurvivorsComplete(rs, all, r);
  }

  /** A table that is validated after every addition is exact for the ranges that survive; an overlap has gone unnoticed
    exactly if one of the additions has not. */
  lemma {:induction false} ValidatedRun<T>(adds: seq<Range<T>>, nullEntry: T, same: (T, T) -> bool)
    requires Accepted(adds, nullEntry, same) && Validated(adds, nullEntry, same)
    ensures HoldsSurvivors(TableOf(adds), SurvivorsOf(adds), AllOf(adds), nullEntry, same)
  {
    hide AddOutcome, Accepts, Insert, Survivors;
    if adds != [] {
      var n := |adds| - 1;
      ValidatedRun(adds[..n], nullEntry, same);
      AddSurvives(TableOf(adds[..n]), SurvivorsOf(adds[..n]), AllOf(adds[..n]), nullEntry, same, adds[n]);
    }
  }

  ghost predicate IsLowest<T>(rs: set<Range<T>>, same: (T, T) -> bool, i: T, r: Range<T>) {
    r in rs && same(r.index, i) && forall q :: q in rs && same(q.index, i) ==> r.first <= q.first
  }

  /** Among disjoint ranges the two nodes of a range are neighbours. */
  lemma Neighbours<T>(lut: seq<Node<T>>, rs: set<Range<T>>, r: Range<T>) returns (k: nat, e: nat)
    requires Represents(lut, rs) && Disjoint(rs) && r in rs
    ensures k < |lut| && lut[k].addr == r.first && EndOf(lut[k], r)
    ensures e < |lut| && lut[e].addr == r.last && EndOf(lut[e], r)
    ensures e == k || e == k + 1
  {
    EndsAreNodes(lut, rs, r);
    k :| 0 <= k < |lut| && lut[k].addr == r.first;
    e :| 0 <= e < |lut| && lut[e].addr == r.last;
    NodeInside(lut, rs, r, k);
    NodeInside(lut, rs, r, e);
    if e > k + 1 {
      NodeInside(lut, rs, r, k + 1);
    }
  }

  lemma FirstOfLowest<T>(lut: seq<Node<T>>, rs: set<Range<T>>, same: (T, T) -> bool, i: T, r: Range<T>, k: nat)
    requires Represents(lut, rs) && Disjoint(rs) && IsLowest(rs, same, i, r)
    requires k < |lut| && lut[k].addr == r.first && EndOf(lut[k], r)
    ensures k == FirstOf(lut, same, i)
  {
    var f := FirstOf(lut, same, i);
    assert Owned(lut[f], rs);
    var q :| q in rs && EndOf(lut[f], q);
    assert r.first <= q.first <= lut[f].addr;
  }

  lemma EraseNodes<T>(lut: seq<Node<T>>, rs: set<Range<T>>, r: Range<T>, b: nat, e: nat, n: Node<T>)
    requires Represents(lut, rs) && Disjoint(rs) && r in rs && b < |lut| && e < |lut|
    requires EndOf(lut[b], r) && lut[b].addr == r.first && lut[e].addr == r.last && (e == b || e == b + 1)
    ensures n in Erase(lut, b) <==> n in lut && !(r.first <= n.addr <= r.last)
  {
    hide Holds, Disjoint;
    var out := Erase(lut, b);
    var d := e + 1 - b;
    if n in lut && !(r.first <= n.addr <= r.last) {
      var j :| 0 <= j < |lut| && lut[j] == n;
      assert out[if j < b then j else j - d] == n;
    }
    if n in out {
      var j :| 0 <= j < |out| && out[j] == n;
      assert out[j] == lut[if j < b then j else j + d];
    }
  }

  /** removeEntry drops the lowest range of that value, and nothing else. */
  lemma RemoveLowest<T>(lut: seq<Node<T>>, rs: set<Range<T>>, same: (T, T) -> bool, i: T, r: Range<T>)
    requires Represents(lut, rs) && Disjoint(rs) && IsLowest(rs, same, i, r)
    ensures var k := FirstOf(lut, same, i);
      k < |lut| && HasPartner(lut, k) && Represents(Erase(lut, k), rs - {r})
  {
    var k, e := Neighbours(lut, rs, r);
    FirstOfLowest(lut, rs, same, i, r, k);
    var out := Erase(lut, k);
    forall n ensures n in out <==> n in lut && !(r.first <= n.addr <= r.last) { EraseNodes(lut, rs, r, k, e, n); }
    HoldsLess(lut, out, rs, r);
  }

  lemma HoldsLess<T>(lut: seq<Node<T>>, out: seq<Node<T>>, rs: set<Range<T>>, r: Range<T>)
    requires Holds(lut, rs) && Disjoint(rs) && r in rs
    requires forall n :: n in out <==> n in lut && !(r.first <= n.addr <= r.last)
    ensures Holds(out, rs - {r})
  {
    forall q | q in rs - {r} ensures Stored(out, q) {
      assert Stored(lut, q) && !Touches(q, r);
    }
    forall n | n in out ensures Owned(n, rs - {r}) {
      assert Owned(n, rs);
      var q :| q in rs && EndOf(n, q);
      assert q in rs - {r};
    }
  }

  datatype Op<T> = Add(index: T, base: Word64, size: Word64) | Remove(index: T)
  datatype State<T> = State(lut: seq<Node<T>>, count: int)

  /** When an addition is refused, and how: its start is stored already, for an entry that is not the null entry; else,
    its end is not behind it. */
  lemma OutcomeIs<T>(lut: seq<Node<T>>, nullEntry: T, same: (T, T) -> bool, base: Word64, size: Word64)
    requires Sorted(lut)
    ensures AddOutcome(lut, nullEntry, same, base, size) ==
      if exists n :: n in lut && n.addr == base && !same(n.index, nullEntry) then AlreadyMapped
      else if base + size > TWO64 || (size == 0 && base > 0) then WrapAround
      else Added
  {
    var k := LowerBound(lut, base);
    if n :| n in lut && n.addr == base && !same(n.index, nullEntry) {
      var i :| 0 <= i < |lut| && lut[i] == n;
      assert i == k;
    }
  }

  /** An addition of no bytes is refused as a wrap-around, except at address zero: there it is entered as a single
    byte. */
  lemma NoBytes<T>(lut: seq<Node<T>>, nullEntry: T, same: (T, T) -> bool, i: T, base: Word64)
    requires Sorted(lut)
    ensures AddOutcome(lut, nullEntry, same, base, 0) == Added <==>
      base == 0 && (lut == [] || lut[0].addr != 0 || same(lut[0].index, nullEntry))
    ensures Insert(lut, i, base, 0) == Insert(lut, i, base, 1)
  {
    if lut != [] && lut[0].addr == 0 { assert LowerBound(lut, 0) == 0; }
  }

  /** The effect of AddEntry and RemoveEntry on the two fields. */
  function Apply<T>(s: State<T>, nullEntry: T, same: (T, T) -> bool, op: Op<T>): (t: State<T>)
    requires Sorted(s.lut)
    ensures Sorted(t.lut)
  {
    match op
    case Add(i, base, size) =>
      if AddOutcome(s.lut, nullEntry, same, base, size) == Added then State(Insert(s.lut, i, base, size), s.count + 1)
      else s
    case Remove(i) =>
      var k := FirstOf(s.lut, same, i);
      if k < |s.lut| && HasPartner(s.lut, k) then State(Erase(s.lut, k), s.count - 1) else s
  }

  /** An addition must be well formed and overlap nothing; a removal must name a value that is present. */
  ghost predicate Fits<T>(rs: set<Range<T>>, nullEntry: T, same: (T, T) -> bool, op: Op<T>) {
    match op
    case Add(i, base, size) =>
      && 1 <= size && base + size <= TWO64 && !same(i, nullEntry)
      && forall q :: q in rs ==> !Touches(q, Range(base, base + size - 1, i))
    case Remove(i) => exists r :: r in rs && same(r.index, i)
  }

  /** One step on the set of ranges: a removal takes away the lowest range of its value. */
  ghost predicate Moves<T>(rs: set<Range<T>>, nullEntry: T, same: (T, T) -> bool, op: Op<T>, rs': set<Range<T>>) {
    Fits(rs, nullEntry, same, op) &&
    match op
    case Add(i, base, size) => rs' == rs + {Range(base, base + size - 1, i)}
    case Remove(i) => exists r :: r in rs && IsLowest(rs, same, i, r) && rs' == rs - {r}
  }

  ghost predicate Tracks<T>(s: State<T>, rs: set<Range<T>>, nullEntry: T, same: (T, T) -> bool) {
    Represents(s.lut, rs) && Disjoint(rs) && NoNull(rs, nullEntry, same) && s.count == |rs|
  }

  lemma AddStaysDisjoint<T>(rs: set<Range<T>>, r: Range<T>)
    requires Disjoint(rs) && r.first <= r.last
    requires forall q :: q in rs ==> q.first <= q.last && !Touches(q, r)
    ensures r !in rs && Disjoint(rs + {r})
    ensures forall q :: q in rs ==> !SharesEnd(r, q)
  {
    assert Touches(r, r);
  }

  lemma StepTracks<T>(s: State<T>, rs: set<Range<T>>, nullEntry: T, same: (T, T) -> bool, op: Op<T>, rs': set<Range<T>>)
    requires Tracks(s, rs, nullEntry, same) && Moves(rs, nullEntry, same, op, rs')
    ensures Tracks(Apply(s, nullEntry, same, op), rs', nullEntry, same)
  {
    if op.Add? {
      var r := Range(op.base, op.base + op.size - 1, op.index);
      AddStaysDisjoint(rs, r);
      AddDistinct(s.lut, rs, nullEntry, same, r, op.size);
    } else {
      var r :| r in rs && IsLowest(rs, same, op.index, r) && rs' == rs - {r};
      RemoveLowest(s.lut, rs, same, op.index, r);
    }
  }

  /** Over any run, the ranges after each step. */
  ghost predicate IsHistory<T>(history: seq<set<Range<T>>>, nullEntry: T, same: (T, T) -> bool, ops: seq<Op<T>>) {
    && |history| == |ops| + 1 && history[0] == {}
    && forall k :: 0 <= k < |ops| ==> Moves(history[k], nullEntry, same, ops[k], history[k + 1])
  }

  function Replay<T>(nullEntry: T, same: (T, T) -> bool, ops: seq<Op<T>>): (s: State<T>)
    ensures Sorted(s.lut)
  {
    if ops == [] then State([], 0)
    else
      Apply(Replay(nullEntry, same, ops[..|ops| - 1]), nullEntry, same, ops[|ops| - 1])
  }

  /** Over any run of disjoint additions and removals of present values the table stays exact, the size counts
    the ranges, validate keeps accepting and getEntry keeps scanning. */
  lemma {:induction false} RunTracks<T>(nullEntry: T, same: (T, T) -> bool, ops: seq<Op<T>>,
                                        history: seq<set<Range<T>>>)
    requires IsHistory(history, nullEntry, same, ops)
    ensures var s, rs := Replay(nullEntry, same, ops), history[|ops|];
      && Tracks(s, rs, nullEntry, same)
      && Accepts(s.lut, nullEntry, same, 0, false)
      && forall addr: Word64 ::
        && (forall r :: r in rs && Covers(r, addr) ==> Lookup(s.lut, nullEntry, addr) == r.index)
        && ((forall r :: r in rs ==> !Covers(r, addr)) ==> Lookup(s.lut, nullEntry, addr) == nullEntry)
  {
    var s, rs := Replay(nullEntry, same, ops), history[|ops|];
    if ops != [] {
      var k := |ops| - 1;
      RunTracks(nullEntry, same, ops[..k], history[..k + 1]);
      StepTracks(Replay(nullEntry, same, ops[..k]), history[k], nullEntry, same, ops[k], rs);
    }
    ValidateIffDisjoint(s.lut, rs, nullEntry, same);
    forall addr: Word64
      ensures (forall r :: r in rs && Covers(r, addr) ==> Lookup(s.lut, nullEntry, addr) == r.index)
      ensures (forall r :: r in rs ==> !Covers(r, addr)) ==> Lookup(s.lut, nullEntry, addr) == nullEntry
    {
      LookupIsScan(s.lut, rs, nullEntry, addr);
    }
  }

  /** getEntry on a table that tracks some ranges, the empty one included. */
  lemma GetEntryIsScan<T>(table: RangeLut<T>, rs: set<Range<T>>, addr: Word64)
    requires Tracks(State(table.lut, table.count), rs, table.nullEntry, table.same)
    ensures forall r :: r in rs && r.first <= addr <= r.last ==> table.GetEntry(addr) == r.index
    ensures (forall r :: r in rs ==> addr < r.first || r.last < addr) ==> table.GetEntry(addr) == table.nullEntry
  {
    LookupIsScan(table.lut, rs, table.nullEntry, addr);
  }

  // ---------------------------------------------------------------------------
  // Additions that overlap what is stored

  /** The node inserted is the next one for an address just if no stored one is before it. */
  lemma PutLookup<T>(lut: seq<Node<T>>, nullEntry: T, m: Node<T>, a: Word64)
    requires Sorted(lut)
    ensures var next := Bound(lut, LowerBound(lut, a));
      && Bound(Put(lut, m), LowerBound(Put(lut, m), a)) == (if a <= m.addr <= next then m.addr else next)
      && Lookup(Put(lut, m), nullEntry, a) ==
        if a <= m.addr <= next then if m.kind == EndRange || m.addr == a then m.index else nullEntry
        else Lookup(lut, nullEntry, a)
  {
    hide LowerBound, Put, Sorted;
    var i, k := LowerBound(lut, a), LowerBound(lut, m.addr);
    var j := if k < |lut| && lut[k].addr == m.addr then k + 1 else k;
    PutAt(lut, m, k);
    BoundAt(Put(lut, m), a, if a <= m.addr then i else i + 1 - (j - k));
  }

  lemma BoundAt<T>(lut: seq<Node<T>>, a: Word64, k: nat)
    requires Sorted(lut) && k <= |lut| && (k > 0 ==> lut[k - 1].addr < a) && (k < |lut| ==> a <= lut[k].addr)
    ensures LowerBound(lut, a) == k
  {
  }

  /** What is found after any addition: the end point that comes first, at the address or behind it, decides. */
  lemma LookupAfterAdd<T>(lut: seq<Node<T>>, nullEntry: T, n: Range<T>, size: Word64, a: Word64)
    requires Sorted(lut) && 1 <= size && n.first + size - 1 == n.last
    ensures var end := if a <= n.first then n.first else n.last;
      Lookup(Insert(lut, n.index, n.first, size), nullEntry, a) ==
      if a <= n.last && end <= Bound(lut, LowerBound(lut, a)) then if n.first <= a then n.index else nullEntry
      else Lookup(lut, nullEntry, a)
  {
    hide Put, Lookup, LowerBound;
    LastAddress(n.first, size, n.last);
    if size > 1 {
      var begin := Node(n.first, n.index, BeginRange);
      PutLookup(lut, nullEntry, begin, a);
      PutLookup(Put(lut, begin), nullEntry, Node(n.last, n.index, EndRange), a);
    } else {
      PutLookup(lut, nullEntry, Node(n.first, n.index, SingleByteRange), a);
    }
  }

  /** The next end point for an address of a range is its begin or its end. */
  lemma NextEnd<T>(lut: seq<Node<T>>, rs: set<Range<T>>, q: Range<T>, a: Word64)
    requires Represents(lut, rs) && Disjoint(rs) && q in rs && Covers(q, a)
    ensures Bound(lut, LowerBound(lut, a)) == if a == q.first then q.first else q.last
  {
    EndsAreNodes(lut, rs, q);
    NodeInside(lut, rs, q, LowerBound(lut, a));
  }

  /** For an address of no range it is the begin of one. */
  lemma NextBegin<T>(lut: seq<Node<T>>, rs: set<Range<T>>, a: Word64)
    requires Represents(lut, rs) && forall q :: q in rs ==> !Covers(q, a)
    ensures var next := Bound(lut, LowerBound(lut, a));
      && (forall q :: q in rs && a <= q.first ==> next <= q.first)
      && (next < TWO64 ==> exists q :: q in rs && a <= q.first == next)
  {
    var k := LowerBound(lut, a);
    forall q | q in rs && a <= q.first ensures Bound(lut, k) <= q.first { EndsAreNodes(lut, rs, q); }
    if k < |lut| {
      assert Owned(lut[k], rs);
      var q :| q in rs && EndOf(lut[k], q);
      assert !Covers(q, a);
      assert q.first <= q.last;
    }
  }

  /** The start of an addition is not stored, so it is accepted. */
  ghost predicate StartIsNew<T>(rs: set<Range<T>>, n: Range<T>) {
    forall q :: q in rs ==> q.first != n.first && q.last != n.first
  }

  /** After an addition that may overlap: what is found at the addresses of a range that was there before.  In front of
    one that starts inside it nothing is found any more, but at its first address. */
  lemma OverlappedLookup<T>(lut: seq<Node<T>>, rs: set<Range<T>>, nullEntry: T, n: Range<T>, size: Word64, q: Range<T>,
                            a: Word64)
    requires Represents(lut, rs) && Disjoint(rs) && 1 <= size && n.first + size - 1 == n.last && StartIsNew(rs, n)
    requires q in rs && Covers(q, a)
    ensures Lookup(Insert(lut, n.index, n.first, size), nullEntry, a) ==
      if a < n.first then if q.first < a && n.first <= q.last then nullEntry else q.index
      else if a == n.first then n.index
      else if a <= n.last && (if a == q.first then a == n.last else n.last <= q.last) then n.index
      else q.index
  {
    hide Lookup, Insert, LowerBound, Sorted, Holds, Disjoint;
    LookupAfterAdd(lut, nullEntry, n, size, a);
    NextEnd(lut, rs, q, a);
    LookupIsScan(lut, rs, nullEntry, a);
    assert q.first != n.first && q.last != n.first;
  }

  /** And at the other addresses: the new range is found at its first address, and where no other begins between the
    address and its last one. */
  lemma NewLookup<T>(lut: seq<Node<T>>, rs: set<Range<T>>, nullEntry: T, n: Range<T>, size: Word64, a: Word64)
    requires Represents(lut, rs) && Disjoint(rs) && 1 <= size && n.first + size - 1 == n.last && StartIsNew(rs, n)
    requires forall q :: q in rs ==> !Covers(q, a)
    ensures Lookup(Insert(lut, n.index, n.first, size), nullEntry, a) ==
      if a == n.first || (Covers(n, a) && forall q :: q in rs ==> q.first < a || n.last <= q.first) then n.index
      else nullEntry
  {
    hide Lookup, Insert, LowerBound, Sorted, Holds, Disjoint;
    LookupAfterAdd(lut, nullEntry, n, size, a);
    NextBegin(lut, rs, a);
    LookupIsScan(lut, rs, nullEntry, a);
  }

  /** So all addresses of all ranges are found, those of the new one among them, exactly if it overlaps none. */
  lemma ExactIffApart<T>(lut: seq<Node<T>>, rs: set<Range<T>>, nullEntry: T, n: Range<T>, size: Word64)
    requires Represents(lut, rs) && Disjoint(rs) && 1 <= size && n.first + size - 1 == n.last && StartIsNew(rs, n)
    requires forall q :: q in rs ==> q.index != n.index
    ensures (forall r, a: Word64 :: r in rs + {n} && Covers(r, a) ==>
        Lookup(Insert(lut, n.index, n.first, size), nullEntry, a) == r.index) <==>
      forall q :: q in rs ==> !Touches(q, n)
  {
    hide Lookup, Insert, LowerBound;
    var out := Insert(lut, n.index, n.first, size);
    if forall q :: q in rs ==> !Touches(q, n) {
      forall r, a: Word64 | r in rs + {n} && Covers(r, a) ensures Lookup(out, nullEntry, a) == r.index {
        if r in rs {
          OverlappedLookup(lut, rs, nullEntry, n, size, r, a);
        } else {
          NewLookup(lut, rs, nullEntry, n, size, a);
        }
      }
    } else {
      var q :| q in rs && Touches(q, n);
      var a := if q.first < n.first then n.first else q.first;
      assert n in rs + {n} && q in rs + {n} && Covers(q, a) && Covers(n, a);
    }
  }
}
