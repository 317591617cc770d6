/** The DMI manager (src/components/scc/dmi_mgr.h): a cache of windows over the transport path. */
module DmiManagers {
  import opened Words
  import opened Options
  import opened RangeTables
  import opened Paging
  import opened Memories
  import opened Routers

  /** A default tlm_dmi: all addresses, no access. */
  const NullDmi := Dmi(null, 0, 0xFFFF_FFFF_FFFF_FFFF, DmiNone)

  predicate SameDmi(a: Dmi, b: Dmi) {
    a.access == b.access && a.start == b.start && a.end == b.end
  }

  // ---------------------------------------------------------------------------
  // Windows

  /** Host ranges do not overlap. */
  ghost predicate Sound(v: View) {
    |v.flat| < TWO64 && Disjoint(v.hosts) && forall r :: r in v.hosts ==> r.first <= r.last
  }

  /** No host buffer is a page. */
  ghost predicate Apart(v: View) {
    forall r :: r in v.hosts ==> r.index.ptr !in v.arr
  }

  /** The window granted for an address is good up to where it is clipped: a host range is inside the memory, and a page
    meets no host range. */
  ghost predicate Clean(t: Tables, v: View, idx: nat, adr: Word64)
    requires idx < |t.tranges|
  {
    var b := v.Bounds(adr);
    0 <= b.0 <= b.1 < TWO64 &&
    var end := t.ClippedEnd(idx, b.1);
    match FindRange(v.hosts, adr)
    case Some(_) => end < |v.flat|
    case None => forall r :: r in v.hosts ==> r.last < b.0 || end < r.first
  }

  /** A good window looks the same from each of its addresses, and shows what is stored there. */
  lemma CleanWindow(t: Tables, v: View, idx: nat, adr: Word64, d: Dmi, x: Word64)
    requires idx < |t.tranges| && Sound(v) && adr < |v.flat| && v.Grants(adr, d) && Clean(t, v, idx, adr)
    requires d.start <= x <= t.ClippedEnd(idx, d.end)
    ensures v.Bounds(x) == (d.start, d.end) && v.CellOf(x) == Some(Cell(d.ptr, x - d.start))
    ensures t.ClippedEnd(idx, d.end) < |v.flat| < TWO64
  {
    hide PageNr, PageOffset;
    match FindRange(v.hosts, adr)
    case Some(r) =>
      assert FindRange(v.hosts, x).value != r ==> !Touches(FindRange(v.hosts, x).value, r);
    case None =>
      PageStart(adr, v.pageSize);
      SplitPlus(d.start, x - d.start, v.pageSize);
  }

  /** An address at which any other window shows the wrong byte. */
  lemma UncleanWindow(t: Tables, v: View, idx: nat, adr: Word64, d: Dmi) returns (x: Word64)
    requires idx < |t.tranges| && Sound(v) && Apart(v) && adr < |v.flat| && v.Grants(adr, d) && !Clean(t, v, idx, adr)
    requires adr <= t.ClippedEnd(idx, d.end) < |v.flat|
    ensures d.start <= x <= t.ClippedEnd(idx, d.end) && v.CellOf(x) != Some(Cell(d.ptr, x - d.start))
  {
    var r :| r in v.hosts && d.start <= r.last && r.first <= t.ClippedEnd(idx, d.end);
    x := if r.first < d.start then d.start else r.first;
    assert FindRange(v.hosts, x).Some?;
  }

  lemma GrantBounds(v: View, adr: Word64, d: Dmi)
    requires adr < |v.flat| && v.Grants(adr, d)
    ensures v.Bounds(adr) == (d.start, d.end) && d.start <= adr <= d.end
    ensures d.ptr != null && d.access == DmiReadWrite && v.CellOf(adr).Some?
  {
  }

  /** The bounds of the target's own window, translated, are those of d. */
  ghost predicate SpansBounds(t: Tables, i: nat, v: View, idx: nat, adr: Word64, d: Dmi)
    requires i < |t.ibases| && idx < |t.tranges|
  {
    var b := v.Bounds(adr);
    && 0 <= b.0 < TWO64 && 0 <= b.1 < TWO64
    && t.Translate(i, idx, Dmi(null, b.0, b.1, DmiNone)) == Dmi(null, d.start, d.end, DmiNone)
  }

  /** An address of the window decodes to the k-th byte behind the window's start, and its cell is the k-th byte behind
    the window's pointer. */
  ghost predicate MirrorsAt(t: Tables, i: nat, vs: seq<View>, d: Dmi, route: Route, a: Word64)
    requires t.Valid() && i < |t.ibases| && route.Route? && route.idx < |vs| && d.ptr != null && d.start <= a
  {
    var k := a - d.start;
    && route.addr + k < TWO64 && t.Transport(i, a) == Route(route.idx, route.addr + k)
    && vs[route.idx].CellOf(route.addr + k) == Some(Cell(d.ptr, k))
    && vs[route.idx].Bounds(route.addr + k) == vs[route.idx].Bounds(route.addr)
  }

  /** Through the window each of its addresses is the byte that b_transport would reach. */
  ghost predicate Mirrors(t: Tables, i: nat, vs: seq<View>, d: Dmi)
    requires t.Valid() && i < |t.ibases|
  {
    && d.ptr != null && d.access == DmiReadWrite && d.start <= d.end && d.end - d.start + 1 < TWO64 &&
    var route := t.Transport(i, d.start);
    && route.Route? && route.idx < |vs| && route.addr + (d.end - d.start) < |vs[route.idx].flat|
    && SpansBounds(t, i, vs[route.idx], route.idx, route.addr, d)
    && forall a: Word64 {:trigger t.Transport(i, a)} :: d.start <= a <= d.end ==> MirrorsAt(t, i, vs, d, route, a)
  }

  /** Two windows with an address in common have the same bounds. */
  lemma SameWindow(t: Tables, i: nat, vs: seq<View>, d: Dmi, e: Dmi, a: Word64)
    requires t.Valid() && i < |t.ibases| && Mirrors(t, i, vs, d) && Mirrors(t, i, vs, e)
    requires d.start <= a <= d.end && e.start <= a <= e.end
    ensures d.start == e.start && d.end == e.end
  {
    hide Tables.Valid, CellIn, View.Bounds, Tables.Transport, Tables.Translate;
    var at := t.Transport(i, a);
    assert MirrorsAt(t, i, vs, d, t.Transport(i, d.start), a) && MirrorsAt(t, i, vs, e, t.Transport(i, e.start), a);
  }

  /** A window stays good while its target keeps its pages. */
  lemma MirrorsKept(t: Tables, i: nat, vs: seq<View>, ws: seq<View>, d: Dmi)
    requires t.Valid() && i < |t.ibases| && Mirrors(t, i, vs, d)
    requires |ws| == |vs| && forall j :: 0 <= j < |vs| ==> vs[j].Keeps(ws[j])
    ensures Mirrors(t, i, ws, d)
  {
    hide Tables.Valid, FindRange, Tables.Transport, Tables.Translate;
    var route := t.Transport(i, d.start);
    var v, w := vs[route.idx], ws[route.idx];
    forall a: Word64 | d.start <= a <= d.end ensures MirrorsAt(t, i, ws, d, route, a) {
      var at := t.Transport(i, a);
      assert MirrorsAt(t, i, vs, d, route, a);
      KeptCell(v.hosts, v.arr, w.arr, v.pageSize, route.addr + (a - d.start));
    }
  }

  /** A host range of target j meets the window, at the target. */
  ghost predicate Meets(t: Tables, i: nat, d: Dmi, j: nat, r: Range<HostMapEntry>)
    requires t.Valid() && i < |t.ibases| && t.Transport(i, d.start).Route?
  {
    var route := t.Transport(i, d.start);
    route.idx == j && d.start <= d.end && r.first <= route.addr + (d.end - d.start) && route.addr <= r.last
  }

  lemma StaysMirrored(t: Tables, i: nat, vs: seq<View>, ws: seq<View>, d: Dmi, j: nat, r: Range<HostMapEntry>)
    requires t.Valid() && i < |t.ibases| && Mirrors(t, i, vs, d) && j < |vs| && |ws| == |vs| && ws == vs[j := ws[j]]
    requires Sound(vs[j]) && Sound(ws[j]) && (Gains(vs[j], ws[j], r) || Gains(ws[j], vs[j], r)) && !Meets(t, i, d, j, r)
    ensures Mirrors(t, i, ws, d)
  {
    hide Tables.Valid, Tables.Transport, Tables.Translate, CellIn, View.Bounds, FindRange;
    var route := t.Transport(i, d.start);
    if route.idx == j {
      forall x | route.addr <= x <= route.addr + (d.end - d.start)
        ensures ws[j].CellOf(x) == vs[j].CellOf(x) && ws[j].Bounds(x) == vs[j].Bounds(x)
      {
        if Gains(vs[j], ws[j], r) { GainedElsewhere(vs[j], ws[j], r, x); } else { GainedElsewhere(ws[j], vs[j], r, x); }
      }
    }
    forall a: Word64 | d.start <= a <= d.end ensures MirrorsAt(t, i, ws, d, route, a) {
      var at := t.Transport(i, a);
      assert MirrorsAt(t, i, vs, d, route, a);
    }
  }

  lemma NotMirrored(t: Tables, i: nat, vs: seq<View>, d: Dmi, route: Route, a: Word64)
    requires t.Valid() && i < |t.ibases| && route == t.Transport(i, d.start) && d.start <= a <= d.end
    requires route.Route? && route.idx < |vs| && d.ptr != null && !MirrorsAt(t, i, vs, d, route, a)
    ensures !Mirrors(t, i, vs, d)
  {
    var at := t.Transport(i, a);
  }

  /** Mapping or unmapping a host range spoils a window exactly if it meets it: no other window needs to be invalidated,
    and this one needs to be. */
  lemma MappingOutdates(t: Tables, i: nat, vs: seq<View>, ws: seq<View>, d: Dmi, j: nat, r: Range<HostMapEntry>)
    requires t.Valid() && i < |t.ibases| && Mirrors(t, i, vs, d) && j < |vs| && |ws| == |vs| && ws == vs[j := ws[j]]
    requires Sound(vs[j]) && Sound(ws[j]) && (Gains(vs[j], ws[j], r) || Gains(ws[j], vs[j], r))
    ensures t.Transport(i, d.start).Route?
    ensures Mirrors(t, i, ws, d) <==> !Meets(t, i, d, j, r)
  {
    hide Tables.Valid, Tables.Transport, Tables.Translate, CellIn, View.Bounds, FindRange;
    var route := t.Transport(i, d.start);
    if Meets(t, i, d, j, r) {
      var x := if route.addr < r.first then r.first else route.addr;
      var a: Word64 := d.start + (x - route.addr);
      var at := t.Transport(i, a);
      assert MirrorsAt(t, i, vs, d, route, a);
      if Gains(vs[j], ws[j], r) { GainedHere(vs[j], ws[j], r, x); } else { GainedHere(ws[j], vs[j], r, x); }
      NotMirrored(t, i, ws, d, route, a);
    } else {
      StaysMirrored(t, i, vs, ws, d, j, r);
    }
  }

  /** A target's window has the accessed address, and it is not clipped off. */
  ghost predicate InWindow(t: Tables, i: nat, a: Word64, d: Dmi)
    requires t.Valid() && i < |t.ibases|
  {
    var route := t.Direct(i, a);
    route.Route? && route.idx < |t.tranges| && d.start <= route.addr <= t.ClippedEnd(route.idx, d.end) <= d.end
  }

  /** Where an accessed address lies in the window granted for it. */
  lemma WindowAround(t: Tables, i: nat, a: Word64, d: Dmi)
    requires t.Valid() && i < |t.ibases| && InWindow(t, i, a, d)
    requires var w := t.Translate(i, t.Direct(i, a).idx, d); w.start <= w.end
    ensures var idx, adr := t.Direct(i, a).idx, t.Direct(i, a).addr;
      var w := t.Translate(i, idx, d);
      && w.start <= a <= w.end && a - w.start == adr - d.start && w.end - w.start == t.ClippedEnd(idx, d.end) - d.start
  {
    t.ClipIs(i, t.Direct(i, a).idx, d);
    hide Tables.Valid, FindRange, Tables.ClippedEnd;
    var idx := t.Direct(i, a).idx;
    ShiftBoth(d.start, t.ClippedEnd(idx, d.end), t.Direct(i, a).addr, t.ibases[i], t.Offset(idx));
    t.BackInverts(i, a, d);
  }

  lemma ShiftBoth(start: Word64, end: Word64, adr: Word64, ibase: Word64, off: Word64)
    requires start <= adr <= end
    requires Add64(Sub64(start, ibase), off) <= Add64(Sub64(end, ibase), off)
    ensures var s, e := Add64(Sub64(start, ibase), off), Add64(Sub64(end, ibase), off);
      var a := Sub64(Add64(adr, off), ibase);
      s <= a <= e && a - s == adr - start && e - s == end - start
  {
  }

  lemma SamePointer(t: Tables, i: nat, idx: nat, d: Dmi)
    requires i < |t.ibases| && idx < |t.tranges|
    ensures t.Translate(i, idx, d).ptr == d.ptr && t.Translate(i, idx, d).access == d.access
  {
  }

  lemma AddNoWrap(a: Word64, k: Word64)
    requires a + k < TWO64
    ensures Add64(a, k) == a + k
  {
  }

  lemma CleanMirrors(t: Tables, i: nat, vs: seq<View>, a: Word64, d: Dmi)
    requires t.Valid() && i < |t.ibases| && t.Direct(i, a) == t.Transport(i, a) && InWindow(t, i, a, d)
    requires var route := t.Direct(i, a); Reaches(vs, route, 0) && Sound(vs[route.idx])
    requires var route := t.Direct(i, a); vs[route.idx].Grants(route.addr, d)
    requires var route := t.Direct(i, a);
      Clean(t, vs[route.idx], route.idx, route.addr) && t.Remains(i, a, route.idx, d.start, d.end)
    requires var w := t.Translate(i, t.Direct(i, a).idx, d); w.start <= w.end
    ensures Mirrors(t, i, vs, t.Translate(i, t.Direct(i, a).idx, d))
  {
    hide Tables.Valid, FindRange, View.CellOf, Tables.Transport, Tables.Direct, Tables.ClippedEnd, Tables.Translate,
      Tables.Remains, Sound, Clean, View.Grants, View.Bounds;
    var idx, adr := t.Direct(i, a).idx, t.Direct(i, a).addr;
    var v := vs[idx];
    var w := t.Translate(i, idx, d);
    GrantBounds(v, adr, d);
    WindowAround(t, i, a, d);
    t.RemainsDecodes(i, a, d);
    SamePointer(t, i, idx, d);
    CleanWindow(t, v, idx, adr, d, d.start);
    forall b: Word64 | w.start <= b <= w.end ensures MirrorsAt(t, i, vs, w, Route(idx, d.start), b) {
      AddNoWrap(w.start, b - w.start);
      assert t.Transport(i, Add64(w.start, b - w.start)) == Route(idx, d.start + (b - w.start));
      CleanWindow(t, v, idx, adr, d, d.start + (b - w.start));
    }
    assert MirrorsAt(t, i, vs, w, Route(idx, d.start), w.start);
    GrantSpans(t, i, v, idx, adr, d);
  }

  lemma MirrorsClean(t: Tables, i: nat, vs: seq<View>, a: Word64, d: Dmi)
    requires t.Valid() && i < |t.ibases| && t.Direct(i, a) == t.Transport(i, a) && InWindow(t, i, a, d)
    requires var route := t.Direct(i, a); Reaches(vs, route, 0) && Sound(vs[route.idx]) && Apart(vs[route.idx])
    requires var route := t.Direct(i, a); vs[route.idx].Grants(route.addr, d)
    requires var w := t.Translate(i, t.Direct(i, a).idx, d); w.start <= w.end && Mirrors(t, i, vs, w)
    ensures var route := t.Direct(i, a);
      Clean(t, vs[route.idx], route.idx, route.addr) && t.Remains(i, a, route.idx, d.start, d.end)
  {
    hide Tables.Valid, FindRange, View.CellOf, Tables.Transport, Tables.Direct, Tables.ClippedEnd, Tables.Translate,
      Tables.Remains, Sound, Apart, Clean, View.Grants, View.Bounds, SpansBounds;
    var idx, adr := t.Direct(i, a).idx, t.Direct(i, a).addr;
    var v := vs[idx];
    var w := t.Translate(i, idx, d);
    var first := t.Transport(i, w.start);
    GrantBounds(v, adr, d);
    WindowAround(t, i, a, d);
    SamePointer(t, i, idx, d);
    assert MirrorsAt(t, i, vs, w, first, a);
    assert first == Route(idx, d.start);
    forall k: Word64 | d.start + k <= t.ClippedEnd(idx, d.end)
      ensures t.Transport(i, Add64(w.start, k)) == Route(idx, d.start + k)
    {
      AddNoWrap(w.start, k);
      var at := t.Transport(i, w.start + k);
      assert MirrorsAt(t, i, vs, w, first, w.start + k);
    }
    t.RemainsDecodes(i, a, d);
    forall x: Word64 | d.start <= x <= t.ClippedEnd(idx, d.end)
      ensures v.CellOf(x) == Some(Cell(d.ptr, x - d.start))
    {
      var at := t.Transport(i, w.start + (x - d.start));
      assert MirrorsAt(t, i, vs, w, first, w.start + (x - d.start));
    }
    if !Clean(t, v, idx, adr) {
      var x := UncleanWindow(t, v, idx, adr, d);
    }
  }

  /** The window that get_direct_mem_ptr returns, if it does not wrap around, mirrors the transport path exactly if what
    is left of the target's window is good, and stays with the target. */
  lemma GrantMirrors(t: Tables, i: nat, vs: seq<View>, a: Word64, d: Dmi)
    requires t.Valid() && i < |t.ibases| && t.Direct(i, a) == t.Transport(i, a) && InWindow(t, i, a, d)
    requires var route := t.Direct(i, a); Reaches(vs, route, 0) && Sound(vs[route.idx]) && Apart(vs[route.idx])
    requires var route := t.Direct(i, a); vs[route.idx].Grants(route.addr, d)
    requires var w := t.Translate(i, t.Direct(i, a).idx, d); w.start <= w.end
    ensures var route := t.Direct(i, a);
      Mirrors(t, i, vs, t.Translate(i, route.idx, d)) <==>
      Clean(t, vs[route.idx], route.idx, route.addr) && t.Remains(i, a, route.idx, d.start, d.end)
  {
    hide Mirrors, Clean, Sound, Apart, View.Grants, Tables.Remains, Tables.Translate;
    if Mirrors(t, i, vs, t.Translate(i, t.Direct(i, a).idx, d)) {
      MirrorsClean(t, i, vs, a, d);
    } else if Clean(t, vs[t.Direct(i, a).idx], t.Direct(i, a).idx, t.Direct(i, a).addr) &&
              t.Remains(i, a, t.Direct(i, a).idx, d.start, d.end) {
      CleanMirrors(t, i, vs, a, d);
    }
  }

  lemma GrantSpans(t: Tables, i: nat, v: View, idx: nat, adr: Word64, d: Dmi)
    requires i < |t.ibases| && idx < |t.tranges| && v.Bounds(d.start) == (d.start, d.end)
    ensures SpansBounds(t, i, v, idx, d.start, t.Translate(i, idx, d))
  {
  }

  // ---------------------------------------------------------------------------
  // The cache

  function WindowRange(d: Dmi): Range<Dmi> {
    Range(d.start, d.end, d)
  }

  function WindowSize(d: Dmi): Word64 {
    Add64(Sub64(d.end, d.start), 1)
  }

  ghost predicate Caches(lut: seq<Node<Dmi>>, count: nat, windows: set<Range<Dmi>>) {
    Tracks(State(lut, count), windows, NullDmi, SameDmi)
  }

  ghost predicate Overlaps(windows: set<Range<Dmi>>, d: Dmi) {
    exists w :: w in windows && Touches(w, WindowRange(d))
  }

  lemma CacheWindow(lut: seq<Node<Dmi>>, count: nat, windows: set<Range<Dmi>>, d: Dmi)
    requires Caches(lut, count, windows) && d.access == DmiReadWrite && d.start <= d.end && d.end - d.start + 1 < TWO64
    requires !Overlaps(windows, d)
    ensures AddOutcome(lut, NullDmi, SameDmi, d.start, WindowSize(d)) == Added
    ensures Caches(Insert(lut, d, d.start, WindowSize(d)), count + 1, windows + {WindowRange(d)})
    ensures WindowRange(d) !in windows
  {
    var n := WindowRange(d);
    assert forall q :: q in windows ==> !Touches(q, n);
    AddStaysDisjoint(windows, n);
    AddDistinct(lut, windows, NullDmi, SameDmi, n, WindowSize(d));
  }

  lemma CachedAlready(lut: seq<Node<Dmi>>, count: nat, windows: set<Range<Dmi>>, w: Range<Dmi>, size: Word64)
    requires Caches(lut, count, windows) && w in windows
    ensures AddOutcome(lut, NullDmi, SameDmi, w.first, size) == AlreadyMapped
  {
    EndsAreNodes(lut, windows, w);
    var i :| 0 <= i < |lut| && lut[i].addr == w.first;
    assert Owned(lut[i], windows);
    assert LowerBound(lut, w.first) == i;
  }

  lemma NeverCached(lut: seq<Node<Dmi>>, d: Dmi)
    requires d.end < d.start
    ensures AddOutcome(lut, NullDmi, SameDmi, d.start, WindowSize(d)) != Added
  {
  }

  ghost predicate AllMirror(t: Tables, i: nat, vs: seq<View>, windows: set<Range<Dmi>>)
    requires t.Valid() && i < |t.ibases|
  {
    forall w {:trigger w in windows} :: w in windows ==> w == WindowRange(w.index) && Mirrors(t, i, vs, w.index)
  }

  lemma AllMirrorKept(t: Tables, i: nat, vs: seq<View>, ws: seq<View>, windows: set<Range<Dmi>>)
    requires t.Valid() && i < |t.ibases| && AllMirror(t, i, vs, windows)
    requires |ws| == |vs| && forall j :: 0 <= j < |vs| ==> vs[j].Keeps(ws[j])
    ensures AllMirror(t, i, ws, windows)
  {
    hide Mirrors, View.Keeps, Tables.Valid;
    forall w | w in windows ensures w == WindowRange(w.index) && Mirrors(t, i, ws, w.index) {
      MirrorsKept(t, i, vs, ws, w.index);
    }
  }

  ghost predicate Covered(windows: set<Range<Dmi>>, a: Word64) {
    exists w :: w in windows && w.first <= a <= w.last
  }

  lemma AllMirrorMore(t: Tables, i: nat, vs: seq<View>, windows: set<Range<Dmi>>, d: Dmi, a: Word64)
    requires t.Valid() && i < |t.ibases| && AllMirror(t, i, vs, windows) && Mirrors(t, i, vs, d)
    requires d.start <= a <= d.end
    ensures AllMirror(t, i, vs, windows + {WindowRange(d)}) && Covered(windows + {WindowRange(d)}, a)
  {
    hide Mirrors, Tables.Valid;
    assert WindowRange(d) in windows + {WindowRange(d)};
  }

  /** A new window overlaps a cached one only if they start at the same address, and does so exactly when the accessed
    address has been cached before. */
  lemma OverlapIsCovered(t: Tables, i: nat, vs: seq<View>, windows: set<Range<Dmi>>, d: Dmi, a: Word64)
    requires t.Valid() && i < |t.ibases| && AllMirror(t, i, vs, windows) && Mirrors(t, i, vs, d)
    requires d.start <= a <= d.end
    ensures forall w :: w in windows && Touches(w, WindowRange(d)) ==> w.first == d.start && w.last == d.end
    ensures Overlaps(windows, d) <==> Covered(windows, a)
  {
    hide Mirrors, Tables.Valid;
    forall w | w in windows && Touches(w, WindowRange(d)) ensures w.first == d.start && w.last == d.end {
      MirrorsBounds(t, i, vs, w.index);
      SameWindow(t, i, vs, w.index, d, if w.first < d.start then d.start else w.first);
    }
    if Covered(windows, a) {
      var w :| w in windows && w.first <= a <= w.last;
      assert Touches(w, WindowRange(d));
    }
  }

  lemma MirrorsBounds(t: Tables, i: nat, vs: seq<View>, d: Dmi)
    requires t.Valid() && i < |t.ibases| && Mirrors(t, i, vs, d)
    ensures d.ptr != null && d.access == DmiReadWrite && d.start <= d.end && d.end - d.start + 1 < TWO64
    ensures var route := t.Transport(i, d.start);
      route.Route? && route.idx < |vs| && route.addr + (d.end - d.start) < |vs[route.idx].flat|
  {
  }

  /** The window of an address wraps around the initiator's address space. */
  ghost predicate Wraps(t: Tables, i: nat, vs: seq<View>, a: Word64)
    requires t.Valid() && i < |t.ibases|
  {
    var route := t.Transport(i, a);
    && route.Route? && route.idx < |vs| && route.idx < |t.tranges|
    && var b := vs[route.idx].Bounds(route.addr);
      && 0 <= b.0 < TWO64 && 0 <= b.1 < TWO64
      && var w := t.Translate(i, route.idx, Dmi(null, b.0, b.1, DmiNone)); w.end < w.start
  }

  /** The window of an address ends at the last address of the initiator. */
  ghost predicate EndsLast(t: Tables, i: nat, vs: seq<View>, a: Word64)
    requires t.Valid() && i < |t.ibases|
  {
    var route := t.Transport(i, a);
    && route.Route? && route.idx < |vs| && route.idx < |t.tranges|
    && var b := vs[route.idx].Bounds(route.addr);
      && 0 <= b.0 < TWO64 && 0 <= b.1 < TWO64
      && t.Translate(i, route.idx, Dmi(null, b.0, b.1, DmiNone)).end == TWO64 - 1
  }

  /** The window of an address may be asked for: it is asked for at the address that the transport path takes, and is
    either refused because it wraps around, or has the address and mirrors the transport path. */
  ghost predicate Cacheable(t: Tables, i: nat, vs: seq<View>, a: Word64)
    requires t.Valid() && i < |t.ibases|
  {
    var route := t.Transport(i, a);
    && t.Direct(i, a) == route && route.Route? && route.idx < |vs| && route.idx < |t.tranges|
    && (Wraps(t, i, vs, a) ||
        (Clean(t, vs[route.idx], route.idx, route.addr) &&
         var b := vs[route.idx].Bounds(route.addr);
         route.addr <= t.ClippedEnd(route.idx, b.1) && t.Remains(i, a, route.idx, b.0, b.1)))
  }

  /** What an access must keep to: it does not wrap around; if it ends at the last address there is, so does its window;
    and if it is answered by a target that offers windows, its window may be asked for. */
  ghost predicate Allowed(t: Tables, i: nat, vs: seq<View>, offers: set<nat>, a: Word64, len: nat)
    requires t.Valid() && i < |t.ibases|
  {
    var route := t.Transport(i, a);
    && a + len <= TWO64 && len < TWO64 && CanServe(vs, route, len)
    && (a + len == TWO64 && Reaches(vs, route, 0) ==> EndsLast(t, i, vs, a))
    && (Reaches(vs, route, len) && route.idx in offers ==> Cacheable(t, i, vs, a))
  }

  /** All there is to know about a window that has just been granted. */
  lemma Granted(t: Tables, i: nat, vs: seq<View>, windows: set<Range<Dmi>>, a: Word64, d: Dmi)
    requires t.Valid() && i < |t.ibases| && AllMirror(t, i, vs, windows) && Cacheable(t, i, vs, a)
    requires Reaches(vs, t.Transport(i, a), 0)
    requires var route := t.Transport(i, a); Sound(vs[route.idx]) && vs[route.idx].Grants(route.addr, d)
    ensures t.Transport(i, a).idx < |t.tranges|
    ensures var w := t.Translate(i, t.Transport(i, a).idx, d);
      && w.access == DmiReadWrite && (w.end < w.start <==> Wraps(t, i, vs, a))
      && (w.start <= w.end ==>
          && w.end - w.start + 1 < TWO64 && w.start <= a <= w.end && Mirrors(t, i, vs, w)
          && (forall q :: q in windows && Touches(q, WindowRange(w)) ==> q.first == w.start)
          && (Overlaps(windows, w) <==> Covered(windows, a)))
  {
    hide Tables.Valid, FindRange, View.CellOf, Tables.Transport, Tables.Direct, Tables.ClippedEnd, Sound, Clean,
      Tables.Remains, Mirrors, View.Grants, View.Bounds, Tables.Translate, AllMirror;
    var idx, adr := t.Transport(i, a).idx, t.Transport(i, a).addr;
    var w := t.Translate(i, idx, d);
    GrantBounds(vs[idx], adr, d);
    t.ClipIs(i, idx, d);
    SamePointer(t, i, idx, d);
    BoundsTranslated(t, i, idx, d);
    if w.start <= w.end {
      CleanMirrors(t, i, vs, a, d);
      MirrorsBounds(t, i, vs, w);
      WindowAround(t, i, a, d);
      OverlapIsCovered(t, i, vs, windows, w, a);
    }
  }

  lemma BoundsTranslated(t: Tables, i: nat, idx: nat, d: Dmi)
    requires i < |t.ibases| && idx < |t.tranges|
    ensures t.Translate(i, idx, Dmi(null, d.start, d.end, DmiNone))
      == Dmi(null, t.Translate(i, idx, d).start, t.Translate(i, idx, d).end, DmiNone)
  {
  }

  lemma AllowedFacts(t: Tables, i: nat, vs: seq<View>, offers: set<nat>, a: Word64, len: nat)
    requires t.Valid() && i < |t.ibases| && Allowed(t, i, vs, offers, a, len)
    ensures a + len <= TWO64 && len < TWO64 && CanServe(vs, t.Transport(i, a), len)
    ensures Reaches(vs, t.Transport(i, a), len) ==>
      Reaches(vs, t.Transport(i, a), 0) && (t.Transport(i, a).idx in offers ==> Cacheable(t, i, vs, a))
  {
    hide Tables.Valid, Tables.Transport, FindRange, Cacheable, EndsLast;
  }

  /** None of this depends on which pages have been allocated. */
  lemma KeptAlike(t: Tables, i: nat, vs: seq<View>, ws: seq<View>, a: Word64, len: nat)
    requires t.Valid() && i < |t.ibases|
    requires |ws| == |vs| && forall j :: 0 <= j < |vs| ==> vs[j].Keeps(ws[j])
    ensures Wraps(t, i, ws, a) <==> Wraps(t, i, vs, a)
    ensures EndsLast(t, i, ws, a) <==> EndsLast(t, i, vs, a)
    ensures Cacheable(t, i, ws, a) <==> Cacheable(t, i, vs, a)
    ensures Reaches(ws, t.Transport(i, a), len) <==> Reaches(vs, t.Transport(i, a), len)
  {
    hide FindRange, Tables.Translate, Tables.Transport, Tables.Direct, Tables.ClippedEnd, Tables.Remains, KeepsPages,
      Tables.Valid;
  }

  lemma CacheableHits(t: Tables, i: nat, vs: seq<View>, a: Word64)
    requires t.Valid() && i < |t.ibases| && Cacheable(t, i, vs, a)
    ensures t.Direct(i, a) == t.Transport(i, a)
    ensures t.Transport(i, a).Route? && t.Transport(i, a).idx < |vs|
  {
  }

  // ---------------------------------------------------------------------------
  // What an access does, whichever way it goes

  /** The flat memory behind target j after the access. */
  ghost function FlatOf(vs: seq<View>, route: Route, command: Command, data: seq<Byte>, j: nat): seq<Byte>
    requires j < |vs|
  {
    if Reaches(vs, route, |data|) && j == route.idx then FlatAfter(vs[j].flat, command, route.addr, data, None)
    else vs[j].flat
  }

  ghost predicate Answered(vs: seq<View>, ws: seq<View>, route: Route, command: Command, before: seq<Byte>,
                           after: seq<Byte>, noise: seq<Byte>)
    requires |before| <= |noise|
  {
    && |ws| == |vs|
    && (forall j :: 0 <= j < |vs| ==> vs[j].Keeps(ws[j]) && ws[j].flat == FlatOf(vs, route, command, before, j))
    && (if Reaches(vs, route, |before|) then
          && var v, w := vs[route.idx], ws[route.idx];
            && after == DataAfter(v.flat, v.CellOf(route.addr).Some?, command, route.addr, before, noise)
            && (command == Write ==> forall a :: route.addr <= a < route.addr + |before| ==> w.CellOf(a).Some?)
        else
          after == before)
  }

  /** The transport path, and the allocation of pages that may follow it. */
  lemma RoutedAnswers(vs: seq<View>, ws: seq<View>, xs: seq<View>, route: Route, command: Command, before: seq<Byte>,
                      after: seq<Byte>, noise: seq<Byte>)
    requires |before| <= |noise|
    requires Routed(vs, ws, route, Reaches(vs, route, |before|), command, None, before, after, noise) && Settled(ws, xs)
    ensures Answered(vs, xs, route, command, before, after, noise)
  {
    hide FlatAfter, DataAfter, FindRange;
    if Reaches(vs, route, |before|) && command == Write {
      var w, x := ws[route.idx], xs[route.idx];
      forall a | route.addr <= a < route.addr + |before| ensures x.CellOf(a).Some? {
        assert w.CellOf(a).Some?;
        KeptCell(w.hosts, w.arr, x.arr, w.pageSize, a);
      }
    }
  }

  /** The cache holds a window with all of the access; the end of that must not be the last address there is, unless it
    is the end of the access as well. */
  ghost predicate Hit(windows: set<Range<Dmi>>, a: Word64, len: nat) {
    exists w :: w in windows && w.first <= a <= w.last && FitsIn(w, a, len)
  }

  predicate FitsIn(w: Range<Dmi>, a: Word64, len: nat) {
    a + len == TWO64 || (w.last + 1 < TWO64 && a + len <= w.last + 1)
  }

  /** The guard lets an access that starts in the window go beyond its end exactly when it wraps around, or ends at the
    last address there is: the sum is then no more than where the access starts. */
  lemma GuardAdmitsOutside(d: Dmi, a: Word64, len: Word64)
    requires d.start <= a <= d.end && d.end + 1 < TWO64
    ensures Add64(a, len) <= Add64(d.end, 1) && !(a + len <= d.end + 1) <==> a + len >= TWO64
  {
  }

  /** The guard on the looked-up entry decides whether the access hits. */
  lemma GuardIsHit(lut: seq<Node<Dmi>>, count: nat, windows: set<Range<Dmi>>, e: Dmi, a: Word64, len: nat)
    requires Caches(lut, count, windows) && a + len <= TWO64 && len < TWO64
    requires forall w {:trigger w in windows} :: w in windows ==>
      w == WindowRange(w.index) && w.index.access == DmiReadWrite && w.last - w.first + 1 < TWO64
    requires e == if count == 0 then NullDmi else Lookup(lut, NullDmi, a)
    ensures e.access != DmiNone && Add64(a, len) <= Add64(e.end, 1) <==> Hit(windows, a, len)
    ensures Hit(windows, a, len) ==>
      WindowRange(e) in windows && e.start <= a <= e.end && FitsIn(WindowRange(e), a, len)
  {
    hide Lookup, Holds, Sorted, NoNull;
    LookupIsScan(lut, windows, NullDmi, a);
    if Covered(windows, a) {
      var w :| w in windows && w.first <= a <= w.last;
      assert Covers(w, a) && e == w.index && w == WindowRange(w.index) && windows != {};
      if Hit(windows, a, len) {
        var q :| q in windows && q.first <= a <= q.last && FitsIn(q, a, len);
        assert q != w ==> !Touches(q, w);
        assert Covers(q, a) && q == WindowRange(q.index);
      }
    } else {
      assert forall w :: w in windows ==> !Covers(w, a);
    }
  }

  /** All windows of an address end where its own does. */
  lemma EndsAlike(t: Tables, i: nat, vs: seq<View>, d: Dmi, a: Word64)
    requires t.Valid() && i < |t.ibases| && Mirrors(t, i, vs, d) && d.start <= a <= d.end && EndsLast(t, i, vs, a)
    ensures d.end == TWO64 - 1
  {
    hide Tables.Valid, CellIn, View.Bounds, Tables.Transport, Tables.Translate;
    var at := t.Transport(i, a);
    assert MirrorsAt(t, i, vs, d, t.Transport(i, d.start), a);
  }

  /** An access that hits stays inside its window. */
  lemma HitFits(t: Tables, i: nat, vs: seq<View>, offers: set<nat>, d: Dmi, a: Word64, len: nat)
    requires t.Valid() && i < |t.ibases| && Mirrors(t, i, vs, d) && d.start <= a <= d.end
    requires Allowed(t, i, vs, offers, a, len) && FitsIn(WindowRange(d), a, len)
    ensures a + len <= d.end + 1
  {
    hide Tables.Valid, Tables.Transport, FindRange, Cacheable, EndsLast, Mirrors;
    if a + len == TWO64 {
      MirrorRun(t, i, vs, d, a, 0);
      EndsAlike(t, i, vs, d, a);
    }
  }

  /** An access inside a window: the transport path would reach the bytes behind the window's pointer. */
  lemma MirrorRun(t: Tables, i: nat, vs: seq<View>, d: Dmi, a: Word64, len: nat)
    requires t.Valid() && i < |t.ibases| && Mirrors(t, i, vs, d) && d.start <= a <= d.end && a + len <= d.end + 1
    ensures var route := t.Transport(i, a);
      && Reaches(vs, route, len) && d.ptr != null && vs[route.idx].CellOf(route.addr) == Some(Cell(d.ptr, a - d.start))
      && forall x :: route.addr <= x < route.addr + len ==>
        vs[route.idx].CellOf(x) == Some(Cell(d.ptr, a - d.start + x - route.addr))
  {
    hide Tables.Valid, CellIn, View.Bounds, Tables.Transport, Tables.Translate, SpansBounds;
    var first, route := t.Transport(i, d.start), t.Transport(i, a);
    assert MirrorsAt(t, i, vs, d, first, a);
    forall x | route.addr <= x < route.addr + len
      ensures vs[route.idx].CellOf(x) == Some(Cell(d.ptr, a - d.start + x - route.addr))
    {
      var at := t.Transport(i, a + (x - route.addr));
      assert MirrorsAt(t, i, vs, d, first, a + (x - route.addr));
    }
  }

  /** What the targets themselves guarantee. */
  lemma TargetSound(router: Router, idx: nat)
    requires router.Attached() && idx < |router.initiator|
    ensures Sound(router.bank.views[idx]) && Apart(router.bank.views[idx])
  {
    SurveySplit(router.initiator, idx);
  }

  /** All there is to know about a window that the router has just returned. */
  lemma NewWindow(router: Router, i: nat, vs: seq<View>, windows: set<Range<Dmi>>, a: Word64, d: Dmi)
    requires router.Attached() && router.Routing().Valid() && i < |router.ibases|
    requires AllMirror(router.Routing(), i, vs, windows) && Cacheable(router.Routing(), i, vs, a)
    requires Reaches(vs, router.Routing().Transport(i, a), 0) && Settled(vs, router.bank.views)
    requires router.bank.views[router.Routing().Transport(i, a).idx].Grants(router.Routing().Transport(i, a).addr, d)
    requires router.Routing().Transport(i, a).idx < |router.initiator|
    ensures router.Routing().Transport(i, a).idx < |router.tranges|
    ensures Stores(router.bank.views, router.Routing().Transport(i, a))
    ensures var t, ws := router.Routing(), router.bank.views; var w := t.Translate(i, t.Transport(i, a).idx, d);
      && AllMirror(t, i, ws, windows) && w.access == DmiReadWrite && (w.end < w.start <==> Wraps(t, i, vs, a))
      && (w.start <= w.end ==>
          && w.end - w.start + 1 < TWO64
          && (forall q :: q in windows && Touches(q, WindowRange(w)) ==> q.first == w.start)
          && (Overlaps(windows, w) <==> Covered(windows, a))
          && AllMirror(t, i, ws, windows + {WindowRange(w)}) && Covered(windows + {WindowRange(w)}, a))
  {
    hide Mirrors, Tables.Valid, Tables.Transport, Tables.Direct, Tables.Translate, Tables.RangeAt, Cacheable, Wraps,
      EndsLast, Survey, View.Grants, Sound, View.Keeps, AllMirror, Covered, StorageOf, Overlaps;
    var t, ws := router.Routing(), router.bank.views;
    var route := t.Transport(i, a);
    KeptAlike(t, i, vs, ws, a, 0);
    TargetSound(router, route.idx);
    GrantBounds(ws[route.idx], route.addr, d);
    AllMirrorKept(t, i, vs, ws, windows);
    Granted(t, i, ws, windows, a, d);
    var w := t.Translate(i, route.idx, d);
    if w.start <= w.end { AllMirrorMore(t, i, ws, windows, w, a); }
  }

  /** A run of stored bytes lies in bounds and holds what the flat memory shows. */
  lemma RunBytes(router: Router, idx: nat, adr: nat, n: nat, buf: array<Byte>, off: nat)
    requires router.Attached() && idx < |router.initiator| && adr < |router.bank.views[idx].flat|
    requires router.Run(idx, adr, n, buf, off)
    requires router.bank.views[idx].CellOf(adr) == Some(Cell(buf, off))
    ensures off + n <= buf.Length && buf in router.bank.storage && buf in router.initiator[idx].buffers
    ensures buf[off..off + n] == router.bank.views[idx].flat[adr..adr + n]
  {
    hide Survey, CellIn;
    var v := router.bank.views[idx];
    router.CellHolds(idx, adr, Cell(buf, off));
    if n > 0 {
      assert v.CellOf(adr + n - 1) == Some(Cell(buf, off + n - 1));
      router.CellHolds(idx, adr + n - 1, Cell(buf, off + n - 1));
    }
    var there, here := buf[off..off + n], v.flat[adr..adr + n];
    forall k | 0 <= k < n ensures there[k] == here[k] {
      assert v.CellOf(adr + k) == Some(Cell(buf, off + k));
      router.CellHolds(idx, adr + k, Cell(buf, off + k));
    }
  }

  lemma CachedMirrors(t: Tables, i: nat, vs: seq<View>, windows: set<Range<Dmi>>, d: Dmi)
    requires t.Valid() && i < |t.ibases| && AllMirror(t, i, vs, windows) && WindowRange(d) in windows
    ensures Mirrors(t, i, vs, d)
  {
    assert WindowRange(d).index == d;
  }

  lemma AnsweredKeeps(vs: seq<View>, ws: seq<View>, route: Route, command: Command, before: seq<Byte>,
                      after: seq<Byte>, noise: seq<Byte>)
    requires |before| <= |noise| && Answered(vs, ws, route, command, before, after, noise)
    ensures |ws| == |vs| && forall j :: 0 <= j < |vs| ==> vs[j].Keeps(ws[j])
  {
  }

  /** Reading through a window. */
  lemma HitAnswers(vs: seq<View>, route: Route, before: seq<Byte>, after: seq<Byte>, noise: seq<Byte>)
    requires |before| <= |noise| && Reaches(vs, route, |before|) && vs[route.idx].CellOf(route.addr).Some?
    requires after == vs[route.idx].flat[route.addr..route.addr + |before|]
    ensures Answered(vs, vs, route, Read, before, after, noise)
  {
  }

  /** Writing through a window. */
  lemma HitWrites(vs: seq<View>, ws: seq<View>, route: Route, data: seq<Byte>, noise: seq<Byte>)
    requires |data| <= |noise| && Reaches(vs, route, |data|)
    requires forall a :: route.addr <= a < route.addr + |data| ==> vs[route.idx].CellOf(a).Some?
    requires ws == vs[route.idx := vs[route.idx].(flat := Overlay(vs[route.idx].flat, route.addr, data, None))]
    ensures Answered(vs, ws, route, Write, data, data, noise)
  {
    forall j | 0 <= j < |vs| ensures vs[j].Keeps(ws[j]) && ws[j].flat == FlatOf(vs, route, Write, data, j) {}
    forall a | route.addr <= a < route.addr + |data| ensures ws[route.idx].CellOf(a).Some? {
      assert vs[route.idx].CellOf(a).Some?;
    }
  }

  lemma AllMirrorFacts(t: Tables, i: nat, vs: seq<View>, windows: set<Range<Dmi>>)
    requires t.Valid() && i < |t.ibases| && AllMirror(t, i, vs, windows)
    ensures forall w {:trigger w in windows} :: w in windows ==>
      w == WindowRange(w.index) && w.index.access == DmiReadWrite && w.last - w.first + 1 < TWO64
  {
    hide Mirrors, Tables.Valid;
    forall w | w in windows
      ensures w == WindowRange(w.index) && w.index.access == DmiReadWrite && w.last - w.first + 1 < TWO64
    {
      MirrorsBounds(t, i, vs, w.index);
    }
  }

  lemma RoutedKeeps(vs: seq<View>, ws: seq<View>, route: Route, okay: bool, command: Command, before: seq<Byte>,
                    after: seq<Byte>, noise: seq<Byte>)
    requires okay ==> Reaches(vs, route, |before|) && |before| <= |noise|
    requires Routed(vs, ws, route, okay, command, None, before, after, noise)
    ensures |ws| == |vs| && forall j :: 0 <= j < |vs| ==> vs[j].Keeps(ws[j])
  {
  }

  lemma ReachesTarget(vs: seq<View>, route: Route, len: nat)
    requires Reaches(vs, route, len)
    ensures route.Route? && route.idx < |vs|
  {
  }

  /** A write leaves the caller's bytes as they are. */
  lemma WriteKeepsData(vs: seq<View>, ws: seq<View>, route: Route, before: seq<Byte>, after: seq<Byte>,
                       noise: seq<Byte>)
    requires |before| <= |noise| && Answered(vs, ws, route, Write, before, after, noise)
    ensures after == before
  {
  }

  /** A failed transport. */
  lemma FailedTransport(vs: seq<View>, ws: seq<View>, route: Route, command: Command, before: seq<Byte>,
                        after: seq<Byte>, noise: seq<Byte>)
    requires |before| <= |noise| && !Reaches(vs, route, |before|)
    requires Routed(vs, ws, route, false, command, None, before, after, noise)
    ensures Answered(vs, ws, route, command, before, after, noise)
  {
  }

  // ---------------------------------------------------------------------------
  // The flat reference

  datatype Access = ReadAt(addr: Word64, len: nat) | WriteAt(addr: Word64, data: seq<Byte>)
  {
    function Len(): nat {
      match this case ReadAt(_, len) => len case WriteAt(_, data) => |data|
    }

    function Kind(): Command {
      match this case ReadAt(_, _) => Read case WriteAt(_, _) => Write
    }

    /** What the caller's buffer holds beforehand. */
    function Before(): (r: seq<Byte>)
      ensures |r| == Len()
    {
      match this case ReadAt(_, len) => seq(len, k => 0) case WriteAt(_, data) => data
    }
  }

  /** One flat byte map for each target. */
  type FlatMaps = seq<seq<Byte>>

  ghost function FlatsOf(vs: seq<View>): (flats: FlatMaps)
    ensures |flats| == |vs| && forall j :: 0 <= j < |vs| ==> flats[j] == vs[j].flat
  {
    seq(|vs|, j requires 0 <= j < |vs| => vs[j].flat)
  }

  predicate InFlat(flats: FlatMaps, route: Route, len: nat) {
    route.Route? && route.idx < |flats| && route.addr < |flats[route.idx]| && route.addr + len <= |flats[route.idx]|
  }

  /** An access on the flat byte maps. */
  ghost function RefStep(t: Tables, i: nat, flats: FlatMaps, op: Access): FlatMaps
    requires t.Valid() && i < |t.ibases|
  {
    var route := t.Transport(i, op.addr);
    if op.WriteAt? && InFlat(flats, route, op.Len()) then
      flats[route.idx := Overlay(flats[route.idx], route.addr, op.data, None)]
    else
      flats
  }

  /** What a read of the flat byte maps returns. */
  ghost function RefRead(t: Tables, i: nat, flats: FlatMaps, op: Access): seq<Byte>
    requires t.Valid() && i < |t.ibases| && InFlat(flats, t.Transport(i, op.addr), op.Len())
  {
    var route := t.Transport(i, op.addr);
    flats[route.idx][route.addr..route.addr + op.Len()]
  }

  ghost function RefRun(t: Tables, i: nat, flats: FlatMaps, ops: seq<Access>): FlatMaps
    requires t.Valid() && i < |t.ibases|
  {
    if ops == [] then flats else RefStep(t, i, RefRun(t, i, flats, ops[..|ops| - 1]), ops[|ops| - 1])
  }

  /** One access agrees with the flat reference: on all the maps afterwards, and on the bytes read, if the first of them
    had been stored before. */
  lemma AnswersAgree(t: Tables, i: nat, vs: seq<View>, ws: seq<View>, op: Access, out: seq<Byte>, noise: seq<Byte>)
    requires t.Valid() && i < |t.ibases| && op.Len() <= |noise|
    requires Answered(vs, ws, t.Transport(i, op.addr), op.Kind(), op.Before(), out, noise)
    ensures FlatsOf(ws) == RefStep(t, i, FlatsOf(vs), op)
    ensures var route := t.Transport(i, op.addr);
      && (InFlat(FlatsOf(vs), route, op.Len()) <==> Reaches(vs, route, op.Len()))
      && (op.ReadAt? && InFlat(FlatsOf(vs), route, op.Len()) && vs[route.idx].CellOf(route.addr).Some? ==>
          out == RefRead(t, i, FlatsOf(vs), op))
      && (op.WriteAt? && InFlat(FlatsOf(vs), route, op.Len()) ==>
          forall a :: route.addr <= a < route.addr + op.Len() ==> ws[route.idx].CellOf(a).Some?)
  {
    hide Tables.Valid, Tables.Transport, FindRange;
    var route := t.Transport(i, op.addr);
    forall j | 0 <= j < |vs| ensures FlatsOf(ws)[j] == RefStep(t, i, FlatsOf(vs), op)[j] {
      assert ws[j].flat == FlatOf(vs, route, op.Kind(), op.Before(), j);
    }
  }

  lemma NoiseOfWrite(vs: seq<View>, ws: seq<View>, route: Route, data: seq<Byte>, noise: seq<Byte>)
    requires |data| <= |noise| && Answered(vs, ws, route, Write, data, data, data)
    ensures Answered(vs, ws, route, Write, data, data, noise)
  {
  }

  // ---------------------------------------------------------------------------
  // Runs

  /** The first byte of an access is stored. */
  ghost predicate Stores(vs: seq<View>, route: Route) {
    route.Route? && route.idx < |vs| && vs[route.idx].CellOf(route.addr).Some?
  }

  /** The access reaches a target that has all of its bytes, and the first of them is stored. */
  ghost predicate Ready(t: Tables, i: nat, vs: seq<View>, op: Access)
    requires t.Valid() && i < |t.ibases|
  {
    var route := t.Transport(i, op.addr);
    Reaches(vs, route, op.Len()) && Stores(vs, route)
  }

  /** The access returns what the flat byte maps hold. */
  ghost predicate ReadsFlat(t: Tables, i: nat, flats: FlatMaps, op: Access, out: seq<Byte>)
    requires t.Valid() && i < |t.ibases|
  {
    InFlat(flats, t.Transport(i, op.addr), op.Len()) && out == RefRead(t, i, flats, op)
  }

  /** An access to a target that offers windows leaves its first byte stored. */
  ghost predicate Acquires(vs: seq<View>, ws: seq<View>, route: Route, len: nat, offers: set<nat>) {
    route.Route? && route.idx in offers && Reaches(vs, route, len) ==> Stores(ws, route)
  }

  /** A run: the views before and after each access, and the targets that offer windows. */
  ghost predicate IsRun(t: Tables, i: nat, history: seq<seq<View>>, offers: set<nat>, ops: seq<Access>,
                        outs: seq<seq<Byte>>, noises: seq<seq<Byte>>)
    requires t.Valid() && i < |t.ibases|
  {
    && |history| == |ops| + 1 && |outs| == |ops| <= |noises|
    && forall k :: 0 <= k < |ops| ==> IsStep(t, i, history[k], history[k + 1], offers, ops[k], outs[k], noises[k])
  }

  ghost predicate IsStep(t: Tables, i: nat, vs: seq<View>, ws: seq<View>, offers: set<nat>, op: Access, out: seq<Byte>,
                         noise: seq<Byte>)
    requires t.Valid() && i < |t.ibases|
  {
    var route := t.Transport(i, op.addr);
    && op.Len() <= |noise| && Answered(vs, ws, route, op.Kind(), op.Before(), out, noise)
    && Acquires(vs, ws, route, op.Len(), offers)
  }

  /** Two addresses that are stored together: the same one, or two on a page and in no host range. */
  ghost predicate Together(v: View, a: nat, b: nat) {
    || a == b
    || (FindRange(v.hosts, a).None? && FindRange(v.hosts, b).None? && PageNr(a, v.pageSize) == PageNr(b, v.pageSize))
  }

  lemma StoredTogether(v: View, a: nat, b: nat)
    requires Together(v, a, b) && v.CellOf(a).Some?
    ensures v.CellOf(b).Some?
  {
  }

  /** The k-th access starts on a byte that an earlier access of the run has made sure is stored. */
  ghost predicate StoredBefore(t: Tables, i: nat, vs: seq<View>, offers: set<nat>, ops: seq<Access>, k: nat)
    requires t.Valid() && i < |t.ibases| && k < |ops|
  {
    exists j :: 0 <= j < k && StoresStart(t, i, vs, offers, ops[j], ops[k])
  }

  /** The earlier access writes a byte that is stored together with the first byte of the later one, or starts on such
    a byte of a target that offers windows. */
  ghost predicate StoresStart(t: Tables, i: nat, vs: seq<View>, offers: set<nat>, earlier: Access, op: Access)
    requires t.Valid() && i < |t.ibases|
  {
    var e, r := t.Transport(i, earlier.addr), t.Transport(i, op.addr);
    && Reaches(vs, e, earlier.Len()) && r.Route? && r.idx == e.idx
    && ((e.idx in offers && Together(vs[e.idx], e.addr, r.addr)) ||
        (earlier.WriteAt? && exists a :: e.addr <= a < e.addr + earlier.Len() && Together(vs[e.idx], a, r.addr)))
  }

  /** The first byte of an access is stored from the start, or since an earlier access of the run. */
  ghost predicate Known(t: Tables, i: nat, vs: seq<View>, offers: set<nat>, ops: seq<Access>, k: nat)
    requires t.Valid() && i < |t.ibases| && k < |ops|
  {
    var route := t.Transport(i, ops[k].addr);
    Reaches(vs, route, ops[k].Len()) && (Stores(vs, route) || StoredBefore(t, i, vs, offers, ops, k))
  }

  lemma AllowedKept(t: Tables, i: nat, vs: seq<View>, ws: seq<View>, offers: set<nat>, a: Word64, len: nat)
    requires t.Valid() && i < |t.ibases| && Allowed(t, i, vs, offers, a, len)
    requires |ws| == |vs| && forall j :: 0 <= j < |vs| ==> vs[j].Keeps(ws[j])
    ensures Allowed(t, i, ws, offers, a, len)
  {
    hide FindRange, Cacheable, EndsLast, Tables.Transport, KeepsPages, Tables.Valid;
    KeptAlike(t, i, vs, ws, a, len);
    KeptAlike(t, i, vs, ws, a, 0);
  }

  /** Every access keeps to what it must, and has random bytes of its own at hand. */
  ghost predicate AllAllowed(t: Tables, i: nat, vs: seq<View>, offers: set<nat>, ops: seq<Access>,
                             noises: seq<seq<Byte>>)
    requires t.Valid() && i < |t.ibases|
  {
    && |noises| == |ops|
    && forall k :: 0 <= k < |ops| ==>
      Allowed(t, i, vs, offers, ops[k].addr, ops[k].Len()) && ops[k].Len() <= |noises[k]|
  }

  lemma AllAllowedKept(t: Tables, i: nat, vs: seq<View>, ws: seq<View>, offers: set<nat>, ops: seq<Access>,
                       noises: seq<seq<Byte>>)
    requires t.Valid() && i < |t.ibases| && AllAllowed(t, i, vs, offers, ops, noises)
    requires |ws| == |vs| && forall j :: 0 <= j < |vs| ==> vs[j].Keeps(ws[j])
    ensures AllAllowed(t, i, ws, offers, ops, noises)
  {
    hide Tables.Valid, Allowed;
    forall k | 0 <= k < |ops| ensures Allowed(t, i, ws, offers, ops[k].addr, ops[k].Len()) {
      AllowedKept(t, i, vs, ws, offers, ops[k].addr, ops[k].Len());
    }
  }

  lemma StepKeeps(t: Tables, i: nat, vs: seq<View>, ws: seq<View>, offers: set<nat>, op: Access, out: seq<Byte>,
                  noise: seq<Byte>)
    requires t.Valid() && i < |t.ibases| && IsStep(t, i, vs, ws, offers, op, out, noise)
    ensures |ws| == |vs| && forall j :: 0 <= j < |vs| ==> vs[j].Keeps(ws[j])
  {
    hide Answered;
    AnsweredKeeps(vs, ws, t.Transport(i, op.addr), op.Kind(), op.Before(), out, noise);
  }

  lemma OneStep(t: Tables, i: nat, vs: seq<View>, ws: seq<View>, offers: set<nat>, op: Access, out: seq<Byte>,
                noise: seq<Byte>)
    requires t.Valid() && i < |t.ibases| && op.Len() <= |noise|
    requires Answered(vs, ws, t.Transport(i, op.addr), op.Kind(), op.Before(), out, noise)
    requires Acquires(vs, ws, t.Transport(i, op.addr), op.Len(), offers)
    ensures IsStep(t, i, vs, ws, offers, op, out, noise)
  {
  }

  lemma LongerRun(t: Tables, i: nat, history: seq<seq<View>>, offers: set<nat>, ops: seq<Access>, outs: seq<seq<Byte>>,
                  noises: seq<seq<Byte>>, ws: seq<View>, op: Access, out: seq<Byte>)
    requires t.Valid() && i < |t.ibases| && IsRun(t, i, history, offers, ops, outs, noises)
    requires |ops| < |noises| && IsStep(t, i, history[|ops|], ws, offers, op, out, noises[|ops|])
    ensures IsRun(t, i, history + [ws], offers, ops + [op], outs + [out], noises)
  {
    hide IsStep;
  }

  /** Along a run memories keep their layout, and no byte that has been stored is lost. */
  lemma {:induction false} KeepsAlong(t: Tables, i: nat, history: seq<seq<View>>, offers: set<nat>, ops: seq<Access>,
                                      outs: seq<seq<Byte>>, noises: seq<seq<Byte>>, j: nat, k: nat)
    requires t.Valid() && i < |t.ibases| && IsRun(t, i, history, offers, ops, outs, noises) && j <= k <= |ops|
    ensures |history[k]| == |history[j]| && forall m :: 0 <= m < |history[j]| ==> history[j][m].Keeps(history[k][m])
    decreases k - j
  {
    hide Tables.Valid, IsStep;
    if j < k {
      assert IsStep(t, i, history[j], history[j + 1], offers, ops[j], outs[j], noises[j]);
      StepKeeps(t, i, history[j], history[j + 1], offers, ops[j], outs[j], noises[j]);
      KeepsAlong(t, i, history, offers, ops, outs, noises, j + 1, k);
    }
  }

  lemma StaysStored(t: Tables, i: nat, history: seq<seq<View>>, offers: set<nat>, ops: seq<Access>,
                    outs: seq<seq<Byte>>, noises: seq<seq<Byte>>, j: nat, k: nat, idx: nat, a: nat)
    requires t.Valid() && i < |t.ibases| && IsRun(t, i, history, offers, ops, outs, noises) && j <= k <= |ops|
    requires idx < |history[j]| && history[j][idx].CellOf(a).Some?
    ensures |history[k]| == |history[j]| && history[k][idx].CellOf(a).Some?
  {
    hide Tables.Valid, FindRange, IsStep;
    KeepsAlong(t, i, history, offers, ops, outs, noises, j, k);
    var v, w := history[j][idx], history[k][idx];
    assert v.Keeps(w);
    KeptCell(v.hosts, v.arr, w.arr, v.pageSize, a);
  }

  /** Along a run the flat byte maps are those of the reference. */
  lemma {:induction false} FlatsAgree(t: Tables, i: nat, history: seq<seq<View>>, offers: set<nat>, ops: seq<Access>,
                                      outs: seq<seq<Byte>>, noises: seq<seq<Byte>>, k: nat)
    requires t.Valid() && i < |t.ibases| && IsRun(t, i, history, offers, ops, outs, noises) && k <= |ops|
    ensures FlatsOf(history[k]) == RefRun(t, i, FlatsOf(history[0]), ops[..k])
  {
    hide Answered, Acquires, RefStep, Tables.Valid, Tables.Transport;
    if k > 0 {
      FlatsAgree(t, i, history, offers, ops, outs, noises, k - 1);
      assert IsStep(t, i, history[k - 1], history[k], offers, ops[k - 1], outs[k - 1], noises[k - 1]);
      AnswersAgree(t, i, history[k - 1], history[k], ops[k - 1], outs[k - 1], noises[k - 1]);
      assert ops[..k][..k - 1] == ops[..k - 1];
    } else {
      assert ops[..0] == [];
    }
  }

  /** Along a run every read whose first byte is stored at that point returns what the flat byte maps hold. */
  lemma ReadAgrees(t: Tables, i: nat, history: seq<seq<View>>, offers: set<nat>, ops: seq<Access>, outs: seq<seq<Byte>>,
                   noises: seq<seq<Byte>>, k: nat)
    requires t.Valid() && i < |t.ibases| && IsRun(t, i, history, offers, ops, outs, noises)
    requires k < |ops| && ops[k].ReadAt? && Ready(t, i, history[k], ops[k])
    ensures ReadsFlat(t, i, RefRun(t, i, FlatsOf(history[0]), ops[..k]), ops[k], outs[k])
  {
    hide Answered, Acquires, RefStep, RefRun, Tables.Valid, Tables.Transport, CellIn;
    FlatsAgree(t, i, history, offers, ops, outs, noises, k);
    assert IsStep(t, i, history[k], history[k + 1], offers, ops[k], outs[k], noises[k]);
    AnswersAgree(t, i, history[k], history[k + 1], ops[k], outs[k], noises[k]);
  }

  /** An access leaves the bytes stored that StoresStart asks for. */
  lemma StepStores(t: Tables, i: nat, us: seq<View>, vs: seq<View>, ws: seq<View>, offers: set<nat>, earlier: Access,
                   out: seq<Byte>, noise: seq<Byte>, op: Access)
    requires t.Valid() && i < |t.ibases| && IsStep(t, i, vs, ws, offers, earlier, out, noise)
    requires |vs| == |us| == |ws| && forall m :: 0 <= m < |us| ==> us[m].Keeps(vs[m]) && vs[m].Keeps(ws[m])
    requires StoresStart(t, i, us, offers, earlier, op)
    ensures Stores(ws, t.Transport(i, op.addr))
  {
    hide Tables.Valid, Tables.Transport, FindRange, CellIn, PageNr;
    var e, r := t.Transport(i, earlier.addr), t.Transport(i, op.addr);
    var w := ws[e.idx];
    assert us[e.idx].Keeps(vs[e.idx]) && vs[e.idx].Keeps(w);
    if e.idx in offers && Together(us[e.idx], e.addr, r.addr) {
      StoredTogether(w, e.addr, r.addr);
    } else {
      var a :| e.addr <= a < e.addr + earlier.Len() && Together(us[e.idx], a, r.addr);
      assert w.CellOf(a).Some?;
      StoredTogether(w, a, r.addr);
    }
  }

  /** The first byte of an access is stored when its turn comes, if it is from the start or an earlier access saw to
    it. */
  lemma KnownIsStored(t: Tables, i: nat, history: seq<seq<View>>, offers: set<nat>, ops: seq<Access>,
                      outs: seq<seq<Byte>>, noises: seq<seq<Byte>>, k: nat)
    requires t.Valid() && i < |t.ibases| && IsRun(t, i, history, offers, ops, outs, noises)
    requires k < |ops| && Known(t, i, history[0], offers, ops, k)
    ensures Ready(t, i, history[k], ops[k])
  {
    hide Tables.Valid, Tables.Transport, IsStep, StoresStart, CellIn, FindRange;
    var route := t.Transport(i, ops[k].addr);
    KeepsAlong(t, i, history, offers, ops, outs, noises, 0, k);
    if Stores(history[0], route) {
      StaysStored(t, i, history, offers, ops, outs, noises, 0, k, route.idx, route.addr);
    } else {
      var j :| 0 <= j < k && StoresStart(t, i, history[0], offers, ops[j], ops[k]);
      KeepsAlong(t, i, history, offers, ops, outs, noises, 0, j);
      KeepsAlong(t, i, history, offers, ops, outs, noises, j, j + 1);
      assert IsStep(t, i, history[j], history[j + 1], offers, ops[j], outs[j], noises[j]);
      StepStores(t, i, history[0], history[j], history[j + 1], offers, ops[j], outs[j], noises[j], ops[k]);
      StaysStored(t, i, history, offers, ops, outs, noises, j + 1, k, route.idx, route.addr);
    }
  }

  /** What a run amounts to. */
  lemma RunAgrees(t: Tables, i: nat, history: seq<seq<View>>, offers: set<nat>, ops: seq<Access>, outs: seq<seq<Byte>>,
                  noises: seq<seq<Byte>>)
    requires t.Valid() && i < |t.ibases| && IsRun(t, i, history, offers, ops, outs, noises)
    ensures FlatsOf(history[|ops|]) == RefRun(t, i, FlatsOf(history[0]), ops)
    ensures forall k :: 0 <= k < |ops| && ops[k].ReadAt? && Ready(t, i, history[k], ops[k]) ==>
      ReadsFlat(t, i, RefRun(t, i, FlatsOf(history[0]), ops[..k]), ops[k], outs[k])
    ensures forall k :: 0 <= k < |ops| && Known(t, i, history[0], offers, ops, k) ==> Ready(t, i, history[k], ops[k])
  {
    hide Tables.Valid, Tables.Transport, IsStep, FlatsOf, RefRun, Known, Ready, ReadsFlat;
    assert ops[..|ops|] == ops;
    FlatsAgree(t, i, history, offers, ops, outs, noises, |ops|);
    forall k | 0 <= k < |ops| && ops[k].ReadAt? && Ready(t, i, history[k], ops[k])
      ensures ReadsFlat(t, i, RefRun(t, i, FlatsOf(history[0]), ops[..k]), ops[k], outs[k])
    {
      ReadAgrees(t, i, history, offers, ops, outs, noises, k);
    }
    forall k | 0 <= k < |ops| && Known(t, i, history[0], offers, ops, k) ensures Ready(t, i, history[k], ops[k]) {
      KnownIsStored(t, i, history, offers, ops, outs, noises, k);
    }
  }

  datatype DmiStatus = Error | Ok | DmiRead | DmiWrite | Threw

  /** The status of an access that takes the transport path.  Acquiring a window reports an error even when it succeeds,
    because the operator meant to collect the result takes its arguments by value. */
  function BusStatus(reached: bool, offered: bool, refused: bool): DmiStatus {
    if !reached then Error
    else if !offered then Ok
    else if refused then Threw
    else Error
  }

  class DmiMgr {
    const router: Router
    const port: nat
    const readLut: RangeLut<Dmi>
    const writeLut: RangeLut<Dmi>
    var disableDmi: bool
    var writeBuf: array<Byte>
    ghost var windows: set<Range<Dmi>>

    ghost predicate Holds(lut: RangeLut<Dmi>)
      reads `windows, lut
    {
      lut.nullEntry == NullDmi && lut.same == SameDmi && Caches(lut.lut, lut.count, windows)
    }

    constructor (router: Router, port: nat)
      requires router.Routing().Valid() && port < |router.ibases|
      ensures this.router == router && this.port == port && !disableDmi && windows == {} && Valid()
    {
      this.router, this.port := router, port;
      readLut := new RangeLut(NullDmi, SameDmi);
      writeLut := new RangeLut(NullDmi, SameDmi);
      disableDmi, writeBuf, windows := false, new Byte[0], {};
    }

    /** Enter a window in both tables; an entry that is refused throws, and the second is then not attempted. */
    method Remember(first: RangeLut<Dmi>, second: RangeLut<Dmi>, d: Dmi) returns (threw: bool)
      requires first != second && Holds(first) && Holds(second)
      requires d.access == DmiReadWrite && (d.start <= d.end ==> d.end - d.start + 1 < TWO64)
      requires d.start <= d.end ==> forall w :: w in windows && Touches(w, WindowRange(d)) ==> w.first == d.start
      modifies first, second, `windows
      ensures Holds(first) && Holds(second)
      ensures threw <==> d.end < d.start || Overlaps(old(windows), d)
      ensures windows == if threw then old(windows) else old(windows) + {WindowRange(d)}
    {
      hide RangeTables.Holds, Sorted, Disjoint, NoNull, Insert, AddOutcome;
      if d.end < d.start {
        NeverCached(first.lut, d);
      } else if Overlaps(windows, d) {
        ghost var w :| w in windows && Touches(w, WindowRange(d));
        CachedAlready(first.lut, first.count, windows, w, WindowSize(d));
      } else {
        CacheWindow(first.lut, first.count, windows, d);
        CacheWindow(second.lut, second.count, windows, d);
      }
      var r := first.AddEntry(d, d.start, WindowSize(d));
      if r != Added { return true; }
      r := second.AddEntry(d, d.start, WindowSize(d));
      windows := windows + {WindowRange(d)};
      return r != Added;
    }

    ghost predicate Valid()
      reads this, readLut, writeLut, router
    {
      && readLut != writeLut && Holds(readLut) && Holds(writeLut)
      && router.Routing().Valid() && port < |router.ibases| && writeBuf !in router.bank.storage
      && AllMirror(router.Routing(), port, router.bank.views, windows)
    }

    ghost predicate Wired()
      reads router, router.addrDecoder, router.initiator, MemsOf(router.initiator), LutsOf(router.initiator),
        StorageOf(router.initiator)
    {
      router.Valid() && router.Attached()
    }

    /** Where b_transport takes an address. */
    ghost function RouteOf(addr: Word64): Route
      requires router.Routing().Valid() && port < |router.ibases|
      reads router`ranges, router`tranges, router`ibases, router`defaultIdx
    {
      router.Routing().Transport(port, addr)
    }

    /** The targets whose windows the manager asks for. */
    ghost function Offers(): (offers: set<nat>)
      reads `disableDmi, router.initiator
      ensures forall j :: j in offers <==> 0 <= j < |router.initiator| && router.initiator[j].allowDmi && !disableDmi
    {
      set j | 0 <= j < |router.initiator| && router.initiator[j].allowDmi && !disableDmi
    }

    ghost predicate Offered(addr: Word64)
      requires router.Routing().Valid() && port < |router.ibases|
      reads `disableDmi, router, router.initiator
    {
      RouteOf(addr).Route? && RouteOf(addr).idx in Offers()
    }

    /** The window of an address cannot be cached: it wraps around, or it has been cached before. */
    ghost predicate Refused(addr: Word64)
      requires router.Routing().Valid() && port < |router.ibases|
      reads `windows, router
    {
      Wraps(router.Routing(), port, router.bank.views, addr) || Covered(windows, addr)
    }

    /** What the status depends on, spelled out. */
    lemma StatusTerms(addr: Word64, length: nat)
      requires router.Routing().Valid() && port < |router.ibases|
      ensures Hit(windows, addr, length) <==>
        exists w :: w in windows && w.first <= addr <= w.last &&
          (addr + length == TWO64 || (w.last < TWO64 - 1 && addr + length <= w.last + 1))
      ensures Offered(addr) <==>
        && RouteOf(addr).Route? && RouteOf(addr).idx < |router.initiator|
        && router.initiator[RouteOf(addr).idx].allowDmi && !disableDmi
      ensures Refused(addr) <==>
        || Wraps(router.Routing(), port, router.bank.views, addr)
        || exists w :: w in windows && w.first <= addr <= w.last
    {
    }

    /** After a successful transport: fetch the window and cache it. */
    method Acquire(gp: Payload, addr: Word64, first: RangeLut<Dmi>, second: RangeLut<Dmi>) returns (status: DmiStatus)
      requires Valid() && Wired()
      requires (first == readLut && second == writeLut) || (first == writeLut && second == readLut)
      requires Reaches(router.bank.views, RouteOf(addr), 0)
      requires Offered(addr) ==> Cacheable(router.Routing(), port, router.bank.views, addr)
      requires gp.dmiAllowed == router.initiator[RouteOf(addr).idx].allowDmi
      modifies gp, readLut, writeLut, `windows, router`bank, router.initiator`buffers, MemsOf(router.initiator)
      ensures Valid() && Wired() && router.Grown()
      ensures Settled(old(router.bank.views), router.bank.views)
      ensures status == BusStatus(true, old(Offered(addr)), old(Refused(addr)))
      ensures old(Offered(addr)) ==> Stores(router.bank.views, RouteOf(addr))
      ensures if status == Error then Covered(windows, addr) else windows == old(windows)
    {
      hide Mirrors, Tables.Valid, Tables.Transport, Tables.Direct, Tables.Translate, Tables.RangeAt, Cacheable, Wraps,
        Survey, Router.Valid, View.Grants, View.Keeps, AllMirror, Offers, Caches, Covered, StorageOf, CellIn,
          DmiMgr.Holds, Overlaps, Stores;
      ghost var frame := FrameOf(router.initiator);
      ghost var t, vs := router.Routing(), router.bank.views;
      SettledAlready(vs);
      if !gp.dmiAllowed || disableDmi { return Ok; }
      CacheableHits(t, port, vs, addr);
      gp.address := addr;
      var ok, dmi, d := router.GetDirectMemPtr(port, gp, NullDmi);
      NewWindow(router, port, vs, windows, addr, d);
      frame := FrameOf(router.initiator);
      var threw := Remember(first, second, dmi);
      return if threw then Threw else Error;
    }

    /** std::copy out of a window. */
    method CopyOut(d: Dmi, addr: Word64, length: nat, data: array<Byte>, ghost noise: seq<Byte>)
      requires Valid() && Wired() && length <= data.Length && data !in router.bank.storage && length <= |noise|
      requires WindowRange(d) in windows && d.start <= addr <= d.end && addr + length <= d.end + 1
      modifies data
      ensures Valid() && Wired() && data[length..] == old(data[length..])
      ensures Answered(router.bank.views, router.bank.views, RouteOf(addr), Command.Read, old(data[..length]),
                       data[..length], noise)
      ensures Stores(router.bank.views, RouteOf(addr))
    {
      hide Mirrors, Tables.Valid, Tables.Transport, Survey, Router.Valid, Caches, CellIn, Answered, StorageOf;
      ghost var frame := FrameOf(router.initiator);
      ghost var t, vs := router.Routing(), router.bank.views;
      ghost var route := t.Transport(port, addr);
      MirrorRun(t, port, vs, d, addr, length);
      RunBytes(router, route.idx, route.addr, length, d.ptr, addr - d.start);
      ghost var flat := vs[route.idx].flat;
      Memory.Copy(d.ptr, Sub64(addr, d.start), data, 0, length);
      assert data[..length] == flat[route.addr..route.addr + length];
      HitAnswers(vs, route, old(data[..length]), data[..length], noise);
    }

    /** std::copy into a window. */
    method CopyInto(d: Dmi, addr: Word64, length: nat, data: array<Byte>, ghost noise: seq<Byte>)
      requires Valid() && Wired() && length <= data.Length && data !in router.bank.storage && length <= |noise|
      requires WindowRange(d) in windows && d.start <= addr <= d.end && addr + length <= d.end + 1
      modifies router`bank, router.bank.storage
      ensures Valid() && Wired() && data[..] == old(data[..]) && router.bank.storage == old(router.bank.storage)
      ensures Answered(old(router.bank.views), router.bank.views, RouteOf(addr), Command.Write, data[..length],
                       data[..length], noise)
      ensures Stores(router.bank.views, RouteOf(addr))
    {
      hide Mirrors, Tables.Valid, Tables.Transport, Survey, Router.Valid, Caches, CellIn, Answered, StorageOf,
        AllMirror;
      ghost var frame := FrameOf(router.initiator);
      ghost var t, vs := router.Routing(), router.bank.views;
      ghost var route := t.Transport(port, addr);
      CachedMirrors(t, port, vs, windows, d);
      MirrorRun(t, port, vs, d, addr, length);
      RunBytes(router, route.idx, route.addr, length, d.ptr, addr - d.start);
      router.CopyToTarget(route.idx, route.addr, length, d.ptr, Sub64(addr, d.start), data);
      HitWrites(vs, router.bank.views, route, data[..length], noise);
      AnsweredKeeps(vs, router.bank.views, route, Command.Write, data[..length], data[..length], noise);
      AllMirrorKept(t, port, vs, router.bank.views, windows);
    }

    /** Build the payload and send it over the bus. */
    method Send(command: Command, addr: Word64, length: nat, buf: array<Byte>, noise: seq<Byte>) returns (gp: Payload)
      requires Valid() && Wired() && length <= buf.Length && buf !in router.bank.storage && length <= |noise|
      requires Allowed(router.Routing(), port, router.bank.views, Offers(), addr, length)
      modifies buf, router`bank, router.initiator`buffers, MemsOf(router.initiator), router.bank.storage
      ensures Valid() && Wired() && router.Grown() && buf[length..] == old(buf[length..]) && fresh(gp)
      ensures gp.status == Okay <==> Reaches(old(router.bank.views), RouteOf(addr), length)
      ensures gp.status == Okay ==> gp.dmiAllowed == router.initiator[RouteOf(addr).idx].allowDmi
      ensures Routed(old(router.bank.views), router.bank.views, RouteOf(addr), gp.status == Okay, command, None,
                     old(buf[..length]), buf[..length], noise)
    {
      hide Tables.Valid, Tables.Transport, Survey, Router.Valid, Caches, CellIn, AllMirror, Allowed, StorageOf,
        Reaches, Settled, Routed, DmiMgr.Holds;
      ghost var frame := FrameOf(router.initiator);
      ghost var t, vs, before := router.Routing(), router.bank.views, buf[..length];
      ghost var route := t.Transport(port, addr);
      AllowedFacts(t, port, vs, Offers(), addr, length);
      gp := new Payload(command, addr, buf, length);
      router.BTransport(port, gp, noise);
      RoutedKeeps(vs, router.bank.views, route, gp.status == Okay, command, before, buf[..length], noise);
      AllMirrorKept(t, port, vs, router.bank.views, windows);
      assert router.Valid();
    }

    /** What follows a transport from vs that has succeeded. */
    method AfterTransport(gp: Payload, addr: Word64, first: RangeLut<Dmi>, second: RangeLut<Dmi>, ghost vs: seq<View>,
                          ghost command: Command, ghost before: seq<Byte>, ghost after: seq<Byte>,
                          ghost noise: seq<Byte>)
      returns (status: DmiStatus)
      requires Valid() && Wired() && |before| <= |noise|
      requires (first == readLut && second == writeLut) || (first == writeLut && second == readLut)
      requires Allowed(router.Routing(), port, vs, Offers(), addr, |before|) && Reaches(vs, RouteOf(addr), |before|)
      requires Routed(vs, router.bank.views, RouteOf(addr), true, command, None, before, after, noise)
      requires RouteOf(addr).idx < |router.initiator|
      requires gp.dmiAllowed == router.initiator[RouteOf(addr).idx].allowDmi
      modifies gp, readLut, writeLut, `windows, router`bank, router.initiator`buffers, MemsOf(router.initiator)
      ensures Valid() && Wired() && router.Grown()
      ensures Answered(vs, router.bank.views, RouteOf(addr), command, before, after, noise)
      ensures status ==
        BusStatus(true, old(Offered(addr)), Wraps(router.Routing(), port, vs, addr) || old(Covered(windows, addr)))
      ensures old(Offered(addr)) ==> Stores(router.bank.views, RouteOf(addr))
    {
      hide Tables.Valid, Tables.Transport, Survey, Router.Valid, Caches, CellIn, Answered, AllMirror, Allowed, Covered,
        StorageOf, Wraps, Reaches, Settled, Routed, MemsOf, LutsOf, View.Keeps, KeepsPages, DmiMgr.Holds;
      ghost var t, ws, route := router.Routing(), router.bank.views, RouteOf(addr);
      RoutedKeeps(vs, ws, route, true, command, before, after, noise);
      AllowedFacts(t, port, vs, Offers(), addr, |before|);
      KeptAlike(t, port, vs, ws, addr, 0);
      status := Acquire(gp, addr, first, second);
      RoutedAnswers(vs, ws, router.bank.views, route, command, before, after, noise);
    }

    /** The transport path, and what follows it: the part that read and write have in common. */
    method OverTheBus(command: Command, addr: Word64, length: nat, buf: array<Byte>, noise: seq<Byte>,
                      first: RangeLut<Dmi>, second: RangeLut<Dmi>) returns (status: DmiStatus)
      requires Valid() && Wired() && length <= buf.Length && buf !in router.bank.storage && length <= |noise|
      requires Allowed(router.Routing(), port, router.bank.views, Offers(), addr, length)
      requires (first == readLut && second == writeLut) || (first == writeLut && second == readLut)
      modifies buf, readLut, writeLut, `windows
      modifies router`bank, router.initiator`buffers, MemsOf(router.initiator), router.bank.storage
      ensures Valid() && Wired() && router.Grown() && buf[length..] == old(buf[length..])
      ensures Answered(old(router.bank.views), router.bank.views, RouteOf(addr), command, old(buf[..length]),
                       buf[..length], noise)
      ensures old(Offered(addr)) && Reaches(old(router.bank.views), RouteOf(addr), length) ==>
        Stores(router.bank.views, RouteOf(addr))
      ensures status ==
        BusStatus(Reaches(old(router.bank.views), RouteOf(addr), length), old(Offered(addr)), old(Refused(addr)))
    {
      hide Tables.Valid, Tables.Transport, Survey, Router.Valid, Caches, CellIn, Answered, AllMirror, Allowed, Covered,
        StorageOf, Wraps, Reaches, Settled, Routed, MemsOf, LutsOf, View.Keeps, KeepsPages, DmiMgr.Holds;
      ghost var vs, before, stored, offers := router.bank.views, buf[..length], router.bank.storage, Offers();
      var gp := Send(command, addr, length, buf, noise);
      assert Offers() == offers;
      assert fresh(router.bank.storage - stored);
      if gp.status == Okay {
        ReachesTarget(vs, RouteOf(addr), length);
        status := AfterTransport(gp, addr, first, second, vs, command, before, buf[..length], noise);
      } else {
        FailedTransport(vs, router.bank.views, RouteOf(addr), command, before, buf[..length], noise);
        status := Error;
      }
    }

    method Read(addr: Word64, length: nat, data: array<Byte>, noise: seq<Byte>) returns (status: DmiStatus)
      requires Valid() && Wired() && length <= data.Length && data !in router.bank.storage && length <= |noise|
      requires Allowed(router.Routing(), port, router.bank.views, Offers(), addr, length)
      modifies data, readLut, writeLut, `windows
      modifies router`bank, router.initiator`buffers, MemsOf(router.initiator), router.bank.storage
      ensures Valid() && Wired() && router.Grown() && data[length..] == old(data[length..])
      ensures Answered(old(router.bank.views), router.bank.views, RouteOf(addr), Command.Read, old(data[..length]),
                       data[..length], noise)
      ensures old(Offered(addr)) && Reaches(old(router.bank.views), RouteOf(addr), length) ==>
        Stores(router.bank.views, RouteOf(addr))
      ensures status ==
        if old(Hit(windows, addr, length)) then DmiRead
        else if !Reaches(old(router.bank.views), RouteOf(addr), length) then Error
        else if !old(Offered(addr)) then Ok
        else if old(Refused(addr)) then Threw
        else Error
    {
      hide Tables.Valid, Tables.Transport, Survey, Router.Valid, Caches, CellIn, Answered, AllMirror, Allowed, Covered,
        StorageOf, Wraps, Reaches, Hit, Lookup;
      ghost var t, vs := router.Routing(), router.bank.views;
      AllMirrorFacts(t, port, vs, windows);
      AllowedFacts(t, port, vs, Offers(), addr, length);
      var entry := readLut.GetEntry(addr);
      GuardIsHit(readLut.lut, readLut.count, windows, entry, addr, length);
      if entry.access != DmiNone && Add64(addr, length) <= Add64(entry.end, 1) {
        CachedMirrors(t, port, vs, windows, entry);
        HitFits(t, port, vs, Offers(), entry, addr, length);
        CopyOut(entry, addr, length, data, noise);
        status := DmiRead;
      } else {
        status := OverTheBus(Command.Read, addr, length, data, noise, readLut, writeLut);
      }
    }

    /** write_buf.resize and std::copy, as TLM does not guarantee the integrity of the data. */
    method FillWriteBuf(data: array<Byte>, length: nat)
      requires Valid() && Wired() && length <= data.Length && data != writeBuf
      modifies `writeBuf, writeBuf
      ensures Valid() && Wired() && writeBuf.Length == length && writeBuf[..] == data[..length] && writeBuf != data
      ensures data[..] == old(data[..]) && (writeBuf == old(writeBuf) || fresh(writeBuf))
    {
      hide Tables.Valid, Survey, Router.Valid, Caches, AllMirror, StorageOf;
      ghost var frame := FrameOf(router.initiator);
      if writeBuf.Length != length {
        writeBuf := new Byte[length];
      }
      Memory.Copy(data, 0, writeBuf, 0, length);
    }

    method Write(addr: Word64, length: nat, data: array<Byte>) returns (status: DmiStatus)
      requires Valid() && Wired() && length <= data.Length && data !in router.bank.storage && data != writeBuf
      requires Allowed(router.Routing(), port, router.bank.views, Offers(), addr, length)
      modifies `writeBuf, writeBuf, readLut, writeLut, `windows
      modifies router`bank, router.initiator`buffers, MemsOf(router.initiator), router.bank.storage
      ensures Valid() && Wired() && router.Grown() && data[..] == old(data[..])
      ensures writeBuf == old(writeBuf) || fresh(writeBuf)
      ensures Answered(old(router.bank.views), router.bank.views, RouteOf(addr), Command.Write, data[..length],
                       data[..length], data[..length])
      ensures old(Offered(addr)) && Reaches(old(router.bank.views), RouteOf(addr), length) ==>
        Stores(router.bank.views, RouteOf(addr))
      ensures status ==
        if old(Hit(windows, addr, length)) then DmiWrite
        else if !Reaches(old(router.bank.views), RouteOf(addr), length) then Error
        else if !old(Offered(addr)) then Ok
        else if old(Refused(addr)) then Threw
        else Error
    {
      hide Tables.Valid, Tables.Transport, Survey, Router.Valid, Caches, CellIn, Answered, AllMirror, Allowed, Covered,
        StorageOf, Wraps, Reaches, Hit, Lookup, Mirrors, FitsIn, MemsOf, LutsOf;
      ghost var t, vs := router.Routing(), router.bank.views;
      AllMirrorFacts(t, port, vs, windows);
      AllowedFacts(t, port, vs, Offers(), addr, length);
      var entry := writeLut.GetEntry(addr);
      GuardIsHit(writeLut.lut, writeLut.count, windows, entry, addr, length);
      if entry.access != DmiNone && Add64(addr, length) <= Add64(entry.end, 1) {
        CachedMirrors(t, port, vs, windows, entry);
        HitFits(t, port, vs, Offers(), entry, addr, length);
        CopyInto(entry, addr, length, data, data[..length]);
        status := DmiWrite;
      } else {
        FillWriteBuf(data, length);
        assert writeBuf[..length] == data[..length];
        status := OverTheBus(Command.Write, addr, length, writeBuf, data[..length], writeLut, readLut);
        WriteKeepsData(vs, router.bank.views, t.Transport(port, addr), data[..length], writeBuf[..length],
          data[..length]);
      }
    }

    /** One access of a client that keeps its bytes in a buffer of its own. */
    method Do(op: Access, noise: seq<Byte>) returns (out: seq<Byte>)
      requires Valid() && Wired() && op.Len() <= |noise|
      requires Allowed(router.Routing(), port, router.bank.views, Offers(), op.addr, op.Len())
      modifies `writeBuf, writeBuf, readLut, writeLut, `windows
      modifies router`bank, router.initiator`buffers, MemsOf(router.initiator), router.bank.storage
      ensures Valid() && Wired() && router.Grown() && (writeBuf == old(writeBuf) || fresh(writeBuf))
      ensures IsStep(router.Routing(), port, old(router.bank.views), router.bank.views, old(Offers()), op, out, noise)
    {
      hide Tables.Valid, Tables.Transport, Survey, Router.Valid, Caches, CellIn, Answered, AllMirror, Allowed, Covered,
        StorageOf, Wraps, Reaches, Hit, IsStep, View.CellOf, DmiMgr.Holds;
      ghost var frame := FrameOf(router.initiator);
      ghost var t, vs, offers, route := router.Routing(), router.bank.views, Offers(), RouteOf(op.addr);
      var before := op.Before();
      var buf := new Byte[op.Len()](k requires 0 <= k < |before| => before[k]);
      assert buf[..op.Len()] == before;
      var status;
      match op {
        case ReadAt(addr, len) =>
          status := Read(addr, len, buf, noise);
        case WriteAt(addr, data) =>
          status := Write(addr, |data|, buf);
          NoiseOfWrite(vs, router.bank.views, route, data, noise);
      }
      out := buf[..op.Len()];
      OneStep(t, port, vs, router.bank.views, offers, op, out, noise);
    }

    /** Any run of reads and writes, through windows or over the bus: the targets end up as the flat byte maps do, and
      every read returns what those hold, unless its first byte is not stored when its turn comes. */
    method Run(ops: seq<Access>, noises: seq<seq<Byte>>)
      returns (outs: seq<seq<Byte>>, ghost history: seq<seq<View>>)
      requires Valid() && Wired() && AllAllowed(router.Routing(), port, router.bank.views, Offers(), ops, noises)
      modifies `writeBuf, writeBuf, readLut, writeLut, `windows
      modifies router`bank, router.initiator`buffers, MemsOf(router.initiator), router.bank.storage
      ensures Valid() && Wired() && |outs| == |ops|
      ensures IsRun(router.Routing(), port, history, old(Offers()), ops, outs, noises)
      ensures history[0] == old(router.bank.views) && history[|ops|] == router.bank.views
      ensures FlatsOf(router.bank.views) == RefRun(router.Routing(), port, FlatsOf(old(router.bank.views)), ops)
      ensures forall k :: 0 <= k < |ops| && ops[k].ReadAt? && Ready(router.Routing(), port, history[k], ops[k]) ==>
        ReadsFlat(router.Routing(), port, RefRun(router.Routing(), port, FlatsOf(history[0]), ops[..k]), ops[k],
          outs[k])
      ensures forall k :: 0 <= k < |ops| && Known(router.Routing(), port, history[0], old(Offers()), ops, k) ==>
        Ready(router.Routing(), port, history[k], ops[k])
    {
      hide Tables.Valid, Tables.Transport, Survey, Router.Valid, Caches, IsStep, AllMirror, Allowed, StorageOf,
        FlatsOf, RefRun, Known, Ready, ReadsFlat, DmiMgr.Holds;
      ghost var t, offers := router.Routing(), Offers();
      history, outs := [router.bank.views], [];
      for n := 0 to |ops|
        invariant Valid() && Wired() && router.Grown() && (writeBuf == old(writeBuf) || fresh(writeBuf))
        invariant IsRun(t, port, history, offers, ops[..n], outs, noises) && Offers() == offers
        invariant history[0] == old(router.bank.views) && history[n] == router.bank.views
        invariant AllAllowed(t, port, router.bank.views, offers, ops, noises)
      {
        ghost var vs := router.bank.views;
        var out := Do(ops[n], noises[n]);
        StepKeeps(t, port, vs, router.bank.views, offers, ops[n], out, noises[n]);
        AllAllowedKept(t, port, vs, router.bank.views, offers, ops, noises);
        LongerRun(t, port, history, offers, ops[..n], outs, noises, router.bank.views, ops[n], out);
        history, outs := history + [router.bank.views], outs + [out];
        assert ops[..n] + [ops[n]] == ops[..n + 1];
      }
      assert ops[..|ops|] == ops;
      RunAgrees(t, port, history, offers, ops, outs, noises);
    }
  }

  lemma OneMemory(ms: seq<Memory>)
    requires |ms| == 1 && ms[0].Valid() && ms[0].HostTable()
    ensures Survey(ms) == Some(Bank([ms[0].Snapshot()], ms[0].buffers))
  {
    ms[0].TableIsMapped();
    var front := ms[..|ms| - 1];
    assert front == [] && Survey(front) == Some(Bank([], {}));
    assert Separate(ms[0], front);
    assert [] + [ms[0].Snapshot()] == [ms[0].Snapshot()] && {} + ms[0].buffers == ms[0].buffers;
  }

  lemma InRangeAllowed(t: Tables, i: nat, vs: seq<View>, offers: set<nat>, r: Range<nat>, a: Word64, len: nat)
    requires t.Valid() && i < |t.ibases| && t.ibases[i] == 0 && r in t.ranges && r.index < |vs|
    requires t.tranges[r.index].remap
    requires var v := vs[r.index]; v.hosts == {} && |v.flat| == r.last - r.first + 1
    requires r.first <= a <= r.last && a + len <= r.last + 1 < TWO64 && len <= vs[r.index].pageSize
    ensures Allowed(t, i, vs, offers, a, len)
  {
    t.OneRange(a, r);
    assert t.Transport(i, a) == Route(r.index, a - r.first);
    assert FindRange(vs[r.index].hosts, a - r.first).None?;
  }

  /** A memory behind a router, and a manager in front of it: every access that stays in the range and asks for at most
    a page is allowed. */
  method Assemble(size: nat, pageSize: Positive, base: Word64) returns (mgr: DmiMgr)
    requires 0 < size && base + size < TWO64
    ensures mgr.Valid() && mgr.Wired()
    ensures forall a: Word64, len: nat :: base <= a < base + size && a + len <= base + size && len <= pageSize ==>
      Allowed(mgr.router.Routing(), mgr.port, mgr.router.bank.views, mgr.Offers(), a, len)
  {
    hide Survey, Allowed, AllMirror, Caches, Memory.Valid, Memory.HostTable, Router.DecoderTable, Router.Resolves,
      Tables.Valid, View.CellOf, CellIn;
    var m := new Memory(size, pageSize, true);
    OneMemory([m]);
    ghost var bank := Bank([m.Snapshot()], m.buffers);
    var router := new Router([m], 1);
    var r := router.SetTargetRange(0, base, size, true);
    ghost var frame := FrameOf(router.initiator);
    mgr := new DmiMgr(router, 0);
    assert mgr.Wired();
    assert router.bank == bank;
    forall a: Word64, len: nat | base <= a < base + size && a + len <= base + size && len <= pageSize
      ensures Allowed(mgr.router.Routing(), mgr.port, mgr.router.bank.views, mgr.Offers(), a, len)
    {
      InRangeAllowed(router.Routing(), 0, bank.views, mgr.Offers(), Range(base, base + size - 1, 0), a, len);
    }
  }

  lemma FirstPage(a: nat, size: nat)
    requires a < size
    ensures PageNr(a, size) == 0 && PageOffset(a, size) == a
  {
  }

  /** A transport that reads the first byte of a memory, and the window that is fetched afterwards. */
  method ReadFirst(m: Memory, out: array<Byte>) returns (d: Dmi)
    requires m.Valid() && m.Mapped() && m.allowDmi && 0x200 < m.mem.pageSize < m.mem.SIZE && m.HostOf(0).None?
    requires out.Length == 1 && out !in m.buffers
    modifies out, m`buffers, m.mem, m.buffers
    ensures m.Valid() && m.Kept() && m.Flat() == old(m.Flat()) && m.Pages() == old(m.Pages())
    ensures m.Snapshot().Grants(0, d) && d.start == 0 && d.end == m.mem.pageSize - 1
  {
    hide PageNr, PageOffset, CellIn, PageCellIn, FindRange, DataAfter;
    FirstPage(0, m.mem.pageSize);
    var gp := new Payload(Command.Read, 0, out, 1);
    var n := m.HandleOperation(gp, [0]);
    var ok;
    ok, d := m.HandleDmi(0, NullDmi);
  }

  lemma HostByte(m: Memory, host: array<Byte>)
    requires m.Valid() && m.mem.SIZE == 0x2000 && m.hosts == {HostRange(0x100, 0x100, host)} && host[0] == 1
    ensures m.Flat()[0x100] == 1 && m.HostOf(0).None?
  {
    m.OneHost(0x100, HostRange(0x100, 0x100, host));
    m.FlatAt(0x100);
  }

  /** An empty table with one window. */
  lemma OneWindow(d: Dmi)
    requires d.start == 0 && 0x100 < d.end < 0xFFFF && d.access == DmiReadWrite
    ensures AddOutcome([], NullDmi, SameDmi, d.start, WindowSize(d)) == Added
    ensures Lookup(Insert([], d, d.start, WindowSize(d)), NullDmi, 0x100) == d
  {
    NewLookup([], {}, NullDmi, WindowRange(d), WindowSize(d), 0x100);
  }

  lemma PageBytes(m: Memory, d: Dmi)
    requires m.Valid() && m.mem.SIZE == 0x2000 && m.mem.pageSize == 0x1000 && m.HostOf(0).None?
    requires m.Snapshot().Grants(0, d) && d.start == 0
    ensures d.ptr != null && d.ptr.Length == 0x1000 && d.ptr in m.buffers && d.ptr[0x100] == m.Pages()[0x100]
  {
    FirstPage(0, 0x1000);
    FirstPage(0x100, 0x1000);
    m.PagesAt(0x100);
  }

  /** An access to 0x100 that hits the window of the first page. */
  method HitFirstPage(m: Memory, d: Dmi, out: array<Byte>)
    requires m.Valid() && m.mem.SIZE == 0x2000 && m.mem.pageSize == 0x1000 && m.HostOf(0).None?
    requires m.Snapshot().Grants(0, d) && d.start == 0 && d.end == 0xFFF
    requires out.Length == 1 && out !in m.buffers && (d.ptr != null ==> out != d.ptr)
    modifies out
    ensures m.Valid() && m.Flat() == old(m.Flat()) && out[0] == old(m.Pages())[0x100]
  {
    hide PageNr, PageOffset, CellIn, PageCellIn, FindRange, Lookup, Insert, LowerBound, View.Grants;
    GrantBounds(m.Snapshot(), 0, d);
    PageBytes(m, d);
    var readLut := new RangeLut(NullDmi, SameDmi);
    OneWindow(d);
    var r := readLut.AddEntry(d, d.start, WindowSize(d));
    var entry := readLut.GetEntry(0x100);
    assert entry.access != DmiNone && Add64(0x100, 1) <= Add64(entry.end, 1);
    Memory.Copy(entry.ptr, Sub64(0x100, entry.start), out, 0, 1);
  }

  /** The window of a page over a host range: what Read does, twice, in a manager bound to a memory.  The first
    access, to the start of the page, fetches its window; the second, to the host range, hits, and returns the page
    beneath. */
  method PageOverHost() returns (m: Memory, out: array<Byte>)
    ensures m.Valid() && m.mem.SIZE == 0x2000 && m.Flat()[0x100] == 1 && out.Length == 1 && out[0] == 0
  {
    hide CellIn, PageCellIn, PageNr, PageOffset, FindRange, Memory.HostTable, Memory.Mapped, Insert, View.Grants;
    m := new Memory(0x2000, 0x1000, true);
    var host := new Byte[0x100](k => 1);
    var mapped := m.MapHostMemory(0x100, 0x100, host);
    out := new Byte[1];
    m.TableIsMapped();
    m.NothingAllocated();
    HostByte(m, host);
    var d := ReadFirst(m, out);
    PageBytes(m, d);
    HitFirstPage(m, d, out);
  }
}
