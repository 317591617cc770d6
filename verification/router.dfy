/** The address router (src/components/scc/router.h) in front of memories. */
module Routers {
  import opened Words
  import opened Options
  import opened RangeTables
  import opened Memories

  /** std::numeric_limits<unsigned>::max(), the null entry of the decoder. */
  const NONE: nat := 0xFFFF_FFFF

  datatype RangeEntry = RangeEntry(base: Word64, size: Word64, remap: bool)

  /** Where an access goes: a target and an address there. */
  datatype Route = NoRoute | Route(idx: nat, addr: Word64)

  predicate SameIndex(a: nat, b: nat) { a == b }

  ghost function IndexAt(ranges: set<Range<nat>>, s: Word64): nat {
    match FindRange(ranges, s) case None => NONE case Some(r) => r.index
  }

  // ---------------------------------------------------------------------------
  // Address arithmetic on the routing tables

  datatype Tables = Tables(ranges: set<Range<nat>>, tranges: seq<RangeEntry>, ibases: seq<Word64>,
                           defaultIdx: Option<nat>)
  {
    /** One range per target, as set_target_range leaves it. */
    ghost predicate Valid() {
      && Disjoint(ranges) && |tranges| < NONE
      && (forall r :: r in ranges ==>
          && r.first <= r.last && r.index < |tranges|
          && tranges[r.index].base == r.first && tranges[r.index].size == r.last - r.first + 1)
      && (defaultIdx.Some? ==> defaultIdx.value < |tranges|)
    }

    ghost function RangeAt(s: Word64): (r: Option<Range<nat>>) {
      FindRange(ranges, s)
    }

    /** What a target's base is taken off addresses on their way to it. */
    function Offset(idx: nat): Word64
      requires idx < |tranges|
    {
      if tranges[idx].remap then tranges[idx].base else 0
    }

    /** b_transport: an access that hits no range goes to the default target with its address as it is. */
    ghost function Transport(i: nat, a: Word64): Route
      requires Valid() && i < |ibases|
    {
      Decode(Add64(a, ibases[i]))
    }

    ghost function Decode(s: Word64): Route
      requires Valid()
    {
      match RangeAt(s)
      case Some(r) => Route(r.index, Sub64(s, Offset(r.index)))
      case None => if defaultIdx.None? then NoRoute else Route(defaultIdx.value, s)
    }

    /** get_direct_mem_ptr: the default target's base is taken off as well. */
    ghost function Direct(i: nat, a: Word64): Route
      requires Valid() && i < |ibases|
    {
      var s := Add64(a, ibases[i]);
      match RangeAt(s)
      case Some(r) => Route(r.index, Sub64(s, Offset(r.index)))
      case None => if defaultIdx.None? then NoRoute else Route(defaultIdx.value, Sub64(s, Offset(defaultIdx.value)))
    }

    /** Where an access goes, in numbers: to the target whose range has the address, counted from the base of that if it
      is remapped; otherwise to the default target, if there is one, with the address unchanged. */
    lemma Lands(i: nat, a: Word64)
      requires Valid() && i < |ibases|
      ensures forall r :: r in ranges && r.first <= (a + ibases[i]) % TWO64 <= r.last ==>
        r.index < |tranges| &&
        Transport(i, a) ==
          Route(r.index, (a + ibases[i]) % TWO64 - if tranges[r.index].remap then tranges[r.index].base else 0)
      ensures (forall r :: r in ranges ==> !(r.first <= (a + ibases[i]) % TWO64 <= r.last)) ==>
        match defaultIdx
        case None => Transport(i, a) == NoRoute
        case Some(idx) => Transport(i, a) == Route(idx, (a + ibases[i]) % TWO64)
    {
      WrapIsModulo(a, ibases[i]);
      var s := Add64(a, ibases[i]);
      forall r | r in ranges && r.first <= s <= r.last ensures RangeAt(s) == Some(r) { OneRange(s, r); }
    }

    /** The two agree exactly when the access hits a range, or the default target is not remapped away from zero. */
    lemma DirectAgrees(i: nat, a: Word64)
      requires Valid() && i < |ibases|
      ensures Direct(i, a) == Transport(i, a) <==>
        RangeAt(Add64(a, ibases[i])).Some? || defaultIdx.None? || Offset(defaultIdx.value) == 0
    {
    }

    /** get_direct_mem_ptr's treatment of the window that a target returned. */
    function Translate(i: nat, idx: nat, d: Dmi): Dmi
      requires i < |ibases| && idx < |tranges|
    {
      var t := tranges[idx];
      var remapBase := if t.remap then 0 else t.base;
      var remapEnd := Add64(remapBase, t.size);
      var clipped := if t.size != 0 && remapEnd >= remapBase && d.end >= remapEnd then Sub64(remapEnd, 1) else d.end;
      d.(start := Add64(Sub64(d.start, ibases[i]), Offset(idx)), end := Add64(Sub64(clipped, ibases[i]), Offset(idx)))
    }

    /** The end of a target's window after clipping to its range. */
    function ClippedEnd(idx: nat, end: Word64): nat
      requires idx < |tranges|
    {
      var t := tranges[idx];
      var limit := (if t.remap then 0 else t.base) + t.size - 1;
      if t.size != 0 && end > limit then limit else end
    }

    /** Clipping as it is computed, with its wrap-around. */
    lemma ClipIs(i: nat, idx: nat, d: Dmi)
      requires i < |ibases| && idx < |tranges|
      ensures ClippedEnd(idx, d.end) <= d.end
      ensures Translate(i, idx, d).end == Add64(Sub64(ClippedEnd(idx, d.end), ibases[i]), Offset(idx))
    {
    }

    /** Clipping never cuts off the accessed address, if that hits a range. */
    lemma ClipKeeps(i: nat, a: Word64, d: Dmi)
      requires Valid() && i < |ibases| && RangeAt(Add64(a, ibases[i])).Some?
      requires d.start <= Direct(i, a).addr <= d.end
      ensures var idx := Direct(i, a).idx;
        && Direct(i, a).addr <= ClippedEnd(idx, d.end) <= d.end
        && Translate(i, idx, d).end == Add64(Sub64(ClippedEnd(idx, d.end), ibases[i]), Offset(idx))
    {
    }

    lemma OneRange(s: Word64, r: Range<nat>)
      requires Valid() && r in ranges && Covers(r, s)
      ensures RangeAt(s) == Some(r)
    {
      assert RangeAt(s).value != r ==> !Touches(RangeAt(s).value, r);
    }

    /** The address of a translated window's k-th byte, seen from the bus. */
    lemma WindowAddress(i: nat, idx: nat, d: Dmi, k: Word64)
      requires i < |ibases| && idx < |tranges|
      ensures Add64(Add64(Translate(i, idx, d).start, k), ibases[i]) == Add64(Add64(d.start, Offset(idx)), k)
    {
      AddBack(d.start, ibases[i], Offset(idx), k);
    }

    /** Every initiator address of the window reaches the target, at the byte the window gives it. */
    ghost predicate Decodes(i: nat, idx: nat, start: Word64, t: Word64, n: nat)
      requires Valid() && i < |ibases|
    {
      forall k: Word64 :: k < n && t + k < TWO64 ==> Transport(i, Add64(start, k)) == Route(idx, t + k)
    }

    lemma WindowReaches(i: nat, r: Range<nat>, d: Dmi, k: Word64)
      requires Valid() && i < |ibases| && r in ranges
      requires tranges[r.index].remap || tranges[r.index].base <= d.start
      requires d.start + k <= ClippedEnd(r.index, d.end)
      ensures Transport(i, Add64(Translate(i, r.index, d).start, k)) == Route(r.index, d.start + k)
    {
      WindowAddress(i, r.index, d, k);
      OneRange(d.start + Offset(r.index) + k, r);
    }

    /** A target's window from start on stays with it: it is remapped, or the window starts inside its range, or what
      is in front of the range goes to it as the default target. */
    ghost predicate Stays(idx: nat, start: Word64)
      requires idx < |tranges|
    {
      || tranges[idx].remap || tranges[idx].base <= start
      || (defaultIdx == Some(idx) && forall q :: q in ranges ==> q.last < start || tranges[idx].base <= q.first)
    }

    lemma DefaultReaches(i: nat, r: Range<nat>, d: Dmi, k: Word64)
      requires Valid() && i < |ibases| && r in ranges && !tranges[r.index].remap && Stays(r.index, d.start)
      requires d.start + k < tranges[r.index].base
      ensures Transport(i, Add64(Translate(i, r.index, d).start, k)) == Route(r.index, d.start + k)
    {
      WindowAddress(i, r.index, d, k);
    }

    /** An address of the window that is taken elsewhere: its first, or one in another range. */
    lemma WindowMisses(i: nat, r: Range<nat>, d: Dmi) returns (k: Word64)
      requires Valid() && i < |ibases| && r in ranges && !Stays(r.index, d.start)
      ensures d.start + k < tranges[r.index].base
      ensures Transport(i, Add64(Translate(i, r.index, d).start, k)) != Route(r.index, d.start + k)
    {
      k := 0;
      if defaultIdx == Some(r.index) {
        var q :| q in ranges && d.start <= q.last && q.first < tranges[r.index].base;
        k := if d.start < q.first then q.first - d.start else 0;
        assert q != r && !Touches(q, r);
        OneRange(d.start + k, q);
      }
      WindowAddress(i, r.index, d, k);
    }

    /** The window of an access that hits a range decodes to its target, byte for byte, exactly when it stays there. */
    lemma WindowDecodes(i: nat, a: Word64, d: Dmi)
      requires Valid() && i < |ibases| && RangeAt(Add64(a, ibases[i])).Some?
      requires d.start <= Direct(i, a).addr <= d.end
      ensures var idx := Direct(i, a).idx;
        Decodes(i, idx, Translate(i, idx, d).start, d.start, ClippedEnd(idx, d.end) - d.start + 1)
        <==> Stays(idx, d.start)
    {
      hide Translate, ClippedEnd;
      var r := RangeAt(Add64(a, ibases[i])).value;
      ClipKeeps(i, a, d);
      if Stays(r.index, d.start) {
        forall k: Word64 | d.start + k <= ClippedEnd(r.index, d.end)
          ensures Transport(i, Add64(Translate(i, r.index, d).start, k)) == Route(r.index, d.start + k)
        {
          if tranges[r.index].remap || tranges[r.index].base <= d.start {
            WindowReaches(i, r, d, k);
          } else if d.start + k < tranges[r.index].base {
            DefaultReaches(i, r, d, k);
          } else {
            WindowAddress(i, r.index, d, k);
            ClippedInRange(r, d.end);
            OneRange(d.start + k, r);
          }
        }
      } else {
        var k := WindowMisses(i, r, d);
      }
    }

    /** The window of an access that hits no range decodes to the default target, which then is not remapped, exactly
      when it meets no range of another target. */
    lemma DefaultDecodes(i: nat, a: Word64, d: Dmi)
      requires Valid() && i < |ibases| && RangeAt(Add64(a, ibases[i])).None?
      requires Direct(i, a).Route? && Direct(i, a) == Transport(i, a)
      requires d.start <= ClippedEnd(Direct(i, a).idx, d.end)
      ensures var idx := Direct(i, a).idx;
        Decodes(i, idx, Translate(i, idx, d).start, d.start, ClippedEnd(idx, d.end) - d.start + 1)
        <==> Alone(idx, d.start, ClippedEnd(idx, d.end))
    {
      hide Translate, ClippedEnd, Decode, Sub64, Add64, FindRange;
      var idx, end := Direct(i, a).idx, ClippedEnd(Direct(i, a).idx, d.end);
      ClipIs(i, idx, d);
      DefaultIsPlain(i, a);
      forall k: Word64 | d.start + k < TWO64
        ensures Transport(i, Add64(Translate(i, idx, d).start, k)) == Decode(d.start + k)
      {
        WindowAddress(i, idx, d, k);
        PlainAddress(d.start, k);
      }
      if Alone(idx, d.start, end) {
        forall x: Word64 | d.start <= x <= end ensures Decode(x) == Route(idx, x) { PlainDecodes(idx, x); }
      } else {
        var q :| q in ranges && q.index != idx && d.start <= q.last && q.first <= end;
        var x := if d.start < q.first then q.first else d.start;
        OneRange(x, q);
        PlainDecodes(idx, x);
        assert Transport(i, Add64(Translate(i, idx, d).start, x - d.start)) == Decode(d.start + (x - d.start));
      }
    }

    lemma DefaultIsPlain(i: nat, a: Word64)
      requires Valid() && i < |ibases| && RangeAt(Add64(a, ibases[i])).None?
      requires Direct(i, a).Route? && Direct(i, a) == Transport(i, a)
      ensures defaultIdx == Some(Direct(i, a).idx) && Direct(i, a).idx < |tranges| && Offset(Direct(i, a).idx) == 0
    {
    }

    /** What a default target that is not remapped answers to. */
    lemma PlainDecodes(idx: nat, s: Word64)
      requires Valid() && defaultIdx == Some(idx) && Offset(idx) == 0
      ensures Decode(s) == Route(idx, s) <==> RangeAt(s).None? || RangeAt(s).value.index == idx
    {
    }

    /** No other target has a range there. */
    ghost predicate Alone(idx: nat, start: Word64, end: nat) {
      forall q :: q in ranges ==> q.index == idx || q.last < start || end < q.first
    }

    /** The window of an access, up to where it is clipped, stays with the target of the access. */
    ghost predicate Remains(i: nat, a: Word64, idx: nat, start: Word64, end: Word64)
      requires i < |ibases| && idx < |tranges|
    {
      if RangeAt(Add64(a, ibases[i])).Some? then Stays(idx, start) else Alone(idx, start, ClippedEnd(idx, end))
    }

    lemma RemainsDecodes(i: nat, a: Word64, d: Dmi)
      requires Valid() && i < |ibases| && Direct(i, a).Route? && Direct(i, a) == Transport(i, a)
      requires d.start <= Direct(i, a).addr <= ClippedEnd(Direct(i, a).idx, d.end) <= d.end
      ensures var idx := Direct(i, a).idx;
        Decodes(i, idx, Translate(i, idx, d).start, d.start, ClippedEnd(idx, d.end) - d.start + 1)
        <==> Remains(i, a, idx, d.start, d.end)
    {
      hide Translate, ClippedEnd, Decodes, Stays, Alone, FindRange;
      if RangeAt(Add64(a, ibases[i])).Some? { WindowDecodes(i, a, d); } else { DefaultDecodes(i, a, d); }
    }

    lemma ClippedInRange(r: Range<nat>, end: Word64)
      requires Valid() && r in ranges && !tranges[r.index].remap
      ensures ClippedEnd(r.index, end) <= r.last
    {
    }

    // --- invalidation

    /** A target address seen from an initiator. */
    function Back(i: nat, idx: nat, t: Word64): Word64
      requires i < |ibases| && idx < |tranges|
    {
      Sub64(Add64(t, Offset(idx)), ibases[i])
    }

    /** The way back is the inverse of the way there, and windows are translated by it. */
    lemma BackInverts(i: nat, a: Word64, d: Dmi)
      requires Valid() && i < |ibases| && Direct(i, a).Route?
      ensures Back(i, Direct(i, a).idx, Direct(i, a).addr) == a
      ensures Translate(i, Direct(i, a).idx, d).start == Back(i, Direct(i, a).idx, d.start)
    {
    }

    /** What the initiator is told about an invalidated range of a target overlaps what it was granted exactly when the
      range overlaps the target's own window and does not wrap around on its way back: one that wraps meets no window
      that does not. */
    lemma InvalidationHits(i: nat, a: Word64, d: Dmi, s: Word64, e: Word64)
      requires Valid() && i < |ibases| && RangeAt(Add64(a, ibases[i])).Some?
      requires d.start <= Direct(i, a).addr <= d.end && s <= e
      requires var idx := Direct(i, a).idx; Translate(i, idx, d).start <= Translate(i, idx, d).end
      ensures var idx := Direct(i, a).idx; var w := Translate(i, idx, d);
        w.start <= Back(i, idx, e) && Back(i, idx, s) <= w.end <==>
        d.start <= e && s <= ClippedEnd(idx, d.end) && Back(i, idx, s) <= Back(i, idx, e)
    {
      hide FindRange, Add64, Sub64;
      var idx := Direct(i, a).idx;
      ClipKeeps(i, a, d);
      TranslateBack(i, idx, d);
      OverlapSurvives(i, idx, d.start, ClippedEnd(idx, d.end), s, e);
    }

    /** Invalidating everything reaches an initiator as everything only if the offset and its base cancel out; to every
      other one it wraps around. */
    lemma EverythingWraps(i: nat, idx: nat)
      requires i < |ibases| && idx < |tranges|
      ensures Back(i, idx, 0) <= Back(i, idx, 0xFFFF_FFFF_FFFF_FFFF) <==> Offset(idx) == ibases[i]
    {
      ShiftBy(0, Sub64(Offset(idx), ibases[i]), Offset(idx), ibases[i]);
      ShiftBy(0xFFFF_FFFF_FFFF_FFFF, Sub64(Offset(idx), ibases[i]), Offset(idx), ibases[i]);
    }

    lemma TranslateBack(i: nat, idx: nat, d: Dmi)
      requires i < |ibases| && idx < |tranges|
      ensures Add64(Sub64(d.start, ibases[i]), Offset(idx)) == Back(i, idx, d.start)
      ensures Add64(Sub64(ClippedEnd(idx, d.end), ibases[i]), Offset(idx)) == Back(i, idx, ClippedEnd(idx, d.end))
    {
    }

    /** A range ws..we of a target that stays in one piece on its way to the initiator overlaps another there exactly
      when it does at the target and the other stays in one piece as well. */
    lemma OverlapSurvives(i: nat, idx: nat, ws: Word64, we: Word64, s: Word64, e: Word64)
      requires i < |ibases| && idx < |tranges| && ws <= we && s <= e && Back(i, idx, ws) <= Back(i, idx, we)
      ensures Back(i, idx, ws) <= Back(i, idx, e) && Back(i, idx, s) <= Back(i, idx, we) <==>
        ws <= e && s <= we && Back(i, idx, s) <= Back(i, idx, e)
    {
      var c := Sub64(Offset(idx), ibases[i]);
      ShiftBy(ws, c, Offset(idx), ibases[i]);
      ShiftBy(we, c, Offset(idx), ibases[i]);
      ShiftBy(s, c, Offset(idx), ibases[i]);
      ShiftBy(e, c, Offset(idx), ibases[i]);
    }
  }

  lemma AddBack(start: Word64, ibase: Word64, off: Word64, k: Word64)
    ensures Add64(Add64(Add64(Sub64(start, ibase), off), k), ibase) == Add64(Add64(start, off), k)
  {
  }

  lemma PlainAddress(a: Word64, k: Word64)
    requires a + k < TWO64
    ensures Add64(Add64(a, 0), k) == a + k
  {
  }

  lemma AddZero(a: Word64)
    ensures Add64(a, 0) == a
  {
  }

  lemma ShiftBy(t: Word64, c: Word64, off: Word64, ibase: Word64)
    requires c == Sub64(off, ibase)
    ensures Sub64(Add64(t, off), ibase) == if t + c < TWO64 then t + c else t + c - TWO64
  {
  }

  // ---------------------------------------------------------------------------

  /** A target with its range entered in the tables. */
  lemma RangeEntered(t: Tables, n: Range<nat>, e: RangeEntry)
    requires t.Valid() && n.index < |t.tranges| && n.first <= n.last && e.base == n.first
    requires e.size == n.last - n.first + 1
    requires forall q :: q in t.ranges ==> q.index != n.index && !Touches(q, n)
    ensures t.(ranges := t.ranges + {n}, tranges := t.tranges[n.index := e]).Valid()
  {
  }

  // ---------------------------------------------------------------------------
  // Several memories side by side

  ghost function MemsOf(ms: seq<Memory>): set<SparseArray> {
    set m | m in ms :: m.mem
  }

  ghost function LutsOf(ms: seq<Memory>): set<RangeLut<HostMapEntry>> {
    set m | m in ms :: m.hostMemLut
  }

  ghost function StorageOf(ms: seq<Memory>): set<array<Byte>>
    reads ms
  {
    set m, b | m in ms && b in m.buffers :: b
  }

  /** What the survey of some memories reads beside the memories themselves.  A method that changes anything else names
    this first, so that the verifier has the sets at hand when it compares the surveys before and after. */
  ghost function FrameOf(ms: seq<Memory>): (set<SparseArray>, set<RangeLut<HostMapEntry>>, set<array<Byte>>)
    reads ms
  {
    (MemsOf(ms), LutsOf(ms), StorageOf(ms))
  }

  /** The memory shares nothing with the others. */
  ghost predicate Separate(m: Memory, others: seq<Memory>)
    reads m, others
  {
    && m !in others && m.mem !in MemsOf(others) && m.hostMemLut !in LutsOf(others)
    && StorageOf(others) !! m.buffers
  }

  /** What there is to see of several memories, and the storage behind it. */
  datatype Bank = Bank(views: seq<View>, storage: set<array<Byte>>)

  /** Look at every memory; there is nothing to see unless each is in order and no two share anything. */
  ghost function Survey(ms: seq<Memory>): (r: Option<Bank>)
    reads ms, MemsOf(ms), LutsOf(ms), StorageOf(ms)
    ensures r.Some? ==> |r.value.views| == |ms| && r.value.storage == StorageOf(ms)
  {
    if ms == [] then Some(Bank([], {}))
    else
      var front, m := ms[..|ms| - 1], ms[|ms| - 1];
      match Survey(front)
      case None => None
      case Some(bank) =>
        if m.Valid() && m.Mapped() && Separate(m, front) then
          Some(Bank(bank.views + [m.Snapshot()], bank.storage + m.buffers))
        else None
  }

  /** The access reaches a target that has all of its bytes. */
  ghost predicate Reaches(vs: seq<View>, route: Route, len: nat) {
    route.Route? && route.idx < |vs| && vs[route.idx].Reaches(route.addr, len)
  }

  ghost predicate CanServe(vs: seq<View>, route: Route, len: nat) {
    route.Route? ==> route.idx < |vs| && vs[route.idx].CanServe(route.addr, len)
  }

  /** A routed access: its target performs it, and nothing else changes; one that fails changes nothing at all. */
  ghost predicate Routed(vs: seq<View>, ws: seq<View>, route: Route, okay: bool, command: Command, byt: ByteEnables,
                         before: seq<Byte>, after: seq<Byte>, noise: seq<Byte>)
    requires okay ==> Reaches(vs, route, |before|) && |before| <= |noise| && CoversLength(byt, |before|)
  {
    if okay then
      && |ws| == |vs| && ws == vs[route.idx := ws[route.idx]]
      && vs[route.idx].Performs(ws[route.idx], command, route.addr, byt, before, after, noise)
    else
      ws == vs && after == before
  }

  /** Pages may have been allocated; no byte has changed. */
  ghost predicate Settled(vs: seq<View>, ws: seq<View>) {
    |ws| == |vs| && forall j :: 0 <= j < |vs| ==> vs[j].Keeps(ws[j]) && ws[j].flat == vs[j].flat
  }

  lemma OneSettles(vs: seq<View>, ws: seq<View>, idx: nat)
    requires idx < |vs| == |ws| && ws == vs[idx := ws[idx]] && vs[idx].Keeps(ws[idx]) && ws[idx].flat == vs[idx].flat
    ensures Settled(vs, ws)
  {
  }

  lemma SettledFlats(vs: seq<View>, ws: seq<View>)
    requires Settled(vs, ws)
    ensures |ws| == |vs| && forall j :: 0 <= j < |ws| ==> ws[j].flat == vs[j].flat
  {
  }

  lemma SettledAlready(vs: seq<View>)
    ensures Settled(vs, vs)
  {
  }

  function Except(ms: seq<Memory>, idx: nat): seq<Memory>
    requires idx < |ms|
  {
    ms[..idx] + ms[idx + 1..]
  }

  lemma SeparateSplit(m: Memory, ms: seq<Memory>, idx: nat)
    requires idx < |ms|
    ensures Separate(m, ms) <==> Separate(m, Except(ms, idx)) && Separate(m, [ms[idx]])
    ensures Separate(m, [ms[idx]]) <==> Separate(ms[idx], [m])
  {
  }

  /** One memory of the bank, and the rest of it. */
  lemma {:induction false} SurveySplit(ms: seq<Memory>, idx: nat)
    requires idx < |ms|
    ensures Survey(ms).Some? <==>
      Survey(Except(ms, idx)).Some? && ms[idx].Valid() && ms[idx].Mapped() && Separate(ms[idx], Except(ms, idx))
    ensures Survey(ms).Some? ==>
      var bank, rest := Survey(ms).value, Survey(Except(ms, idx)).value;
      && bank.views[..idx] + bank.views[idx + 1..] == rest.views && bank.views[idx] == ms[idx].Snapshot()
      && bank.storage == rest.storage + ms[idx].buffers
  {
    hide Memory.Valid, Memory.Mapped, Memory.Snapshot, MemsOf, LutsOf, StorageOf, Separate;
    var n := |ms| - 1;
    if idx < n {
      SurveySplit(ms[..n], idx);
      SeparateSplit(ms[n], ms[..n], idx);
      assert Except(ms, idx)[..n - 1] == Except(ms[..n], idx);
      SeparateSplit(ms[idx], Except(ms, idx), n - 1);
      assert Except(Except(ms, idx), n - 1) == Except(ms[..n], idx);
    } else {
      assert Except(ms, idx) == ms[..n];
    }
  }

  lemma SameElsewhere<T>(s: seq<T>, t: seq<T>, idx: nat)
    requires |s| == |t| && idx < |s| && s[..idx] + s[idx + 1..] == t[..idx] + t[idx + 1..]
    ensures t == s[idx := t[idx]]
  {
    assert forall k :: 0 <= k < idx ==> s[k] == (s[..idx] + s[idx + 1..])[k] && t[k] == (t[..idx] + t[idx + 1..])[k];
    assert forall k :: idx < k < |s| ==>
      s[k] == (s[..idx] + s[idx + 1..])[k - 1] && t[k] == (t[..idx] + t[idx + 1..])[k - 1];
  }

  /** Hand an access to one memory; the others keep everything. */
  method Serve(m: Memory, ghost others: seq<Memory>, addr: Word64, trans: Payload, noise: seq<Byte>)
    requires m.Valid() && m.Mapped() && m.CanServe(addr, trans.length) && trans.length <= |noise|
    requires trans.WellFormed() && trans.data !in m.buffers && trans.data !in StorageOf(others)
    requires Survey(others).Some? && Separate(m, others)
    modifies trans`address, trans`status, trans`dmiAllowed, trans.data, m`buffers, m.mem, m.buffers
    ensures trans.address == addr
    ensures Survey(others) == old(Survey(others))
    ensures m.Valid() && m.Mapped() && Separate(m, others) && old(m.buffers) <= m.buffers
    ensures fresh(m.buffers - old(m.buffers))
    ensures trans.status ==
      if addr + trans.length > m.mem.SIZE then AddressError
      else if trans.streamingWidth < trans.length then GenericError
      else Okay
    ensures if trans.status == Okay then
        && trans.dmiAllowed == m.allowDmi && trans.data[trans.length..] == old(trans.data[trans.length..])
        && old(m.Snapshot()).Performs(m.Snapshot(), trans.command, addr, trans.byteEnable,
          old(trans.data[..trans.length]), trans.data[..trans.length], noise)
      else
        trans.data[..] == old(trans.data[..]) && m.Snapshot() == old(m.Snapshot())
  {
    trans.address := addr;
    var n := m.HandleFlat(trans, noise);
  }

  /** Ask one memory for a window; nothing changes but the pages that it has. */
  method Grant(m: Memory, ghost others: seq<Memory>, adr: Word64, dmi0: Dmi) returns (ok: bool, dmi: Dmi)
    requires m.Valid() && m.Mapped() && adr < m.mem.SIZE
    requires Survey(others).Some? && Separate(m, others)
    modifies m`buffers, m.mem
    ensures Survey(others) == old(Survey(others))
    ensures m.Valid() && m.Mapped() && Separate(m, others) && old(m.buffers) <= m.buffers
    ensures fresh(m.buffers - old(m.buffers))
    ensures old(m.Snapshot()).Keeps(m.Snapshot()) && m.Snapshot().flat == old(m.Snapshot().flat)
    ensures ok == m.allowDmi
    ensures if ok then m.Snapshot().Grants(adr, dmi) else dmi == dmi0
  {
    ok, dmi := m.HandleDmi(adr, dmi0);
  }

  /** std::copy into a run of bytes of one memory; the others keep everything. */
  method CopyIn(ghost m: Memory, ghost others: seq<Memory>, ghost adr: nat, n: nat, buf: array<Byte>, off: nat,
                src: array<Byte>)
    requires m.Valid() && m.Mapped() && adr + n <= m.mem.SIZE && m.Segment(adr, n, buf, off)
    requires n <= src.Length && src !in m.buffers && src != buf && buf in m.buffers
    requires Survey(others).Some? && Separate(m, others)
    modifies buf
    ensures Survey(others) == old(Survey(others))
    ensures m.Valid() && m.Mapped() && Separate(m, others)
    ensures m.Snapshot() == old(m.Snapshot()).(flat := Overlay(old(m.Flat()), adr, old(src[..n]), None))
  {
    assert src[0..0 + n] == src[..n];
    Memory.WritePart(m, adr, n, buf, off, src, 0, None, false);
  }

  class Router {
    const addrDecoder: RangeLut<nat>
    const initiator: seq<Memory>
    var ibases: seq<Word64>
    var tranges: seq<RangeEntry>
    var defaultIdx: Option<nat>
    ghost var ranges: set<Range<nat>>
    ghost var bank: Bank

    ghost function Routing(): Tables
      reads `ranges, `tranges, `ibases, `defaultIdx
    {
      Tables(ranges, tranges, ibases, defaultIdx)
    }

    /** The decoder finds the index of the range an address lies in. */
    ghost predicate Resolves()
      reads `ranges, addrDecoder
    {
      forall s: Word64 {:trigger addrDecoder.GetEntry(s)} :: addrDecoder.GetEntry(s) == IndexAt(ranges, s)
    }

    ghost predicate DecoderTable()
      reads `ranges, addrDecoder
    {
      && addrDecoder.nullEntry == NONE && addrDecoder.same == SameIndex
      && Tracks(State(addrDecoder.lut, addrDecoder.count), ranges, NONE, SameIndex)
    }

    lemma TableResolves()
      requires DecoderTable()
      ensures Resolves()
    {
      forall s: Word64 ensures addrDecoder.GetEntry(s) == IndexAt(ranges, s) {
        LookupIsScan(addrDecoder.lut, ranges, NONE, s);
      }
    }

    ghost predicate Valid()
      reads `ranges, `tranges, `ibases, `defaultIdx, addrDecoder
    {
      && Routing().Valid() && |tranges| == |initiator| && addrDecoder.nullEntry == NONE && Resolves()
    }

    constructor (targets: seq<Memory>, initiators: nat)
      requires |targets| < NONE && Survey(targets).Some?
      ensures Valid() && DecoderTable() && Attached() && initiator == targets && ranges == {} && defaultIdx == None
      ensures ibases == seq(initiators, i => 0) && fresh(addrDecoder)
    {
      hide Survey;
      ghost var frame := FrameOf(targets);
      addrDecoder := new RangeLut(NONE, SameIndex);
      initiator := targets;
      ibases := seq(initiators, i => 0);
      tranges := seq(|targets|, i => RangeEntry(0, 0, false));
      defaultIdx, ranges := None, {};
      bank := Survey(targets).value;
    }

    /** Give a target its range; it must not have one yet, and the range must be free. */
    method SetTargetRange(idx: nat, base: Word64, size: Word64, remap: bool) returns (r: AddResult)
      requires Valid() && DecoderTable() && idx < |tranges| && 1 <= size && base + size <= TWO64
      requires forall q :: q in ranges ==> q.index != idx && (q.last < base || base + size <= q.first)
      modifies `ranges, `tranges, addrDecoder
      ensures Valid() && DecoderTable() && r == Added && (old(Attached()) ==> Attached())
      ensures ranges == old(ranges) + {Range(base, base + size - 1, idx)}
      ensures tranges == old(tranges)[idx := RangeEntry(base, size, remap)]
    {
      hide RangeTables.Holds, Sorted, Disjoint, NoNull, Insert, AddOutcome, Survey, Resolves;
      ghost var frame := FrameOf(initiator);
      ghost var n := Range(base, base + size - 1, idx);
      AddRange(State(addrDecoder.lut, addrDecoder.count), ranges, n, size);
      RangeEntered(Routing(), n, RangeEntry(base, size, remap));
      tranges := tranges[idx := RangeEntry(base, size, remap)];
      r := addrDecoder.AddEntry(idx, base, size);
      ranges := ranges + {n};
      TableResolves();
    }

    method SetInitiatorBase(i: nat, base: Word64)
      requires Valid() && i < |ibases|
      modifies this`ibases
      ensures Valid() && ibases == old(ibases)[i := base]
    {
      ibases := ibases[i := base];
    }

    // --- the targets behind the router

    /** The targets are in order, share nothing, and look as recorded. */
    ghost predicate Attached()
      reads `bank, initiator, MemsOf(initiator), LutsOf(initiator), StorageOf(initiator)
    {
      Survey(initiator) == Some(bank)
    }

    /** New storage of the targets is newly allocated. */
    twostate predicate Grown()
      reads `bank
    {
      old(bank.storage) <= bank.storage && fresh(bank.storage - old(bank.storage))
    }

    /** Hand the access to one target; the others keep everything. */
    method Forward(idx: nat, addr: Word64, trans: Payload, noise: seq<Byte>)
      requires Attached() && idx < |initiator| && trans.WellFormed() && trans.data !in bank.storage
      requires trans.length <= |noise|
      requires bank.views[idx].CanServe(addr, trans.length)
      modifies `bank, trans`address, trans`status, trans`dmiAllowed, trans.data, initiator`buffers, MemsOf(initiator),
        bank.storage
      ensures Attached() && Grown()
      ensures trans.status ==
        if !Reaches(old(bank.views), Route(idx, addr), trans.length) then AddressError
        else if trans.streamingWidth < trans.length then GenericError
        else Okay
      ensures trans.data[trans.length..] == old(trans.data[trans.length..]) && trans.address == addr
      ensures trans.status == Okay ==> trans.dmiAllowed == initiator[idx].allowDmi
      ensures Routed(old(bank.views), bank.views, Route(idx, addr), trans.status == Okay, trans.command,
                     trans.byteEnable,
                     old(trans.data[..trans.length]), trans.data[..trans.length], noise)
    {
      hide Survey, FlatAfter, DataAfter, KeepsPages, CellIn, UniformIn, StorageOf;
      ghost var frame := FrameOf(initiator);
      SurveySplit(initiator, idx);
      Serve(initiator[idx], Except(initiator, idx), addr, trans, noise);
      SurveySplit(initiator, idx);
      ghost var bank' := Survey(initiator).value;
      SameElsewhere(bank.views, bank'.views, idx);
      bank := bank';
    }

    method BTransport(i: nat, trans: Payload, noise: seq<Byte>)
      requires Valid() && Attached() && i < |ibases| && trans.WellFormed() && trans.data !in bank.storage
      requires trans.length <= |noise|
      requires CanServe(bank.views, Routing().Transport(i, trans.address), trans.length)
      modifies `bank, trans`address, trans`status, trans`dmiAllowed, trans.data, initiator`buffers, MemsOf(initiator),
        bank.storage
      ensures Attached() && Grown()
      ensures trans.data[trans.length..] == old(trans.data[trans.length..])
      ensures var route := Routing().Transport(i, old(trans.address));
        && trans.address ==
          (match route case NoRoute => Add64(old(trans.address), ibases[i]) case Route(_, addr) => addr)
        && (route.NoRoute? ==> trans.status == AddressError)
        && (trans.status ==
          if !Reaches(old(bank.views), route, trans.length) then AddressError
          else if trans.streamingWidth < trans.length then GenericError
          else Okay)
        && (trans.status == Okay ==> trans.dmiAllowed == initiator[route.idx].allowDmi)
        && Routed(old(bank.views), bank.views, route, trans.status == Okay, trans.command, trans.byteEnable,
                  old(trans.data[..trans.length]), trans.data[..trans.length], noise)
      ensures trans.status != Okay ==> bank.views == old(bank.views) && trans.data[..] == old(trans.data[..])
    {
      hide Survey, FlatAfter, DataAfter, KeepsPages, CellIn, UniformIn, MemsOf, LutsOf, StorageOf, Serves,
        View.Performs, View.Keeps, Disjoint;
      ghost var frame := FrameOf(initiator);
      var address := trans.address;
      if ibases[i] != 0 {
        address := Add64(address, ibases[i]);
      }
      var idx := addrDecoder.GetEntry(address);
      if idx != addrDecoder.nullEntry {
        Forward(idx, Sub64(address, if tranges[idx].remap then tranges[idx].base else 0), trans, noise);
      } else if defaultIdx.Some? {
        Forward(defaultIdx.value, address, trans, noise);
      } else {
        trans.address := address;
        trans.status := AddressError;
      }
    }

    /** Ask the target at idx for a window; the others keep everything. */
    method AskTarget(idx: nat, adr: Word64, dmi0: Dmi) returns (ok: bool, dmi: Dmi)
      requires Attached() && idx < |initiator| && adr < |bank.views[idx].flat|
      modifies `bank, initiator`buffers, MemsOf(initiator)
      ensures Attached() && Grown()
      ensures Settled(old(bank.views), bank.views)
      ensures ok == initiator[idx].allowDmi
      ensures if ok then bank.views[idx].Grants(adr, dmi) else dmi == dmi0
    {
      hide Survey, KeepsPages, CellIn, FindRange, StorageOf;
      ghost var frame := FrameOf(initiator);
      SurveySplit(initiator, idx);
      ok, dmi := Grant(initiator[idx], Except(initiator, idx), adr, dmi0);
      SurveySplit(initiator, idx);
      ghost var bank' := Survey(initiator).value;
      SameElsewhere(bank.views, bank'.views, idx);
      OneSettles(bank.views, bank'.views, idx);
      bank := bank';
    }

    /** The target's window d, seen from the initiator. */
    method GetDirectMemPtr(i: nat, trans: Payload, dmi0: Dmi) returns (ok: bool, dmi: Dmi, ghost d: Dmi)
      requires Valid() && Attached() && i < |ibases|
      requires var route := Routing().Direct(i, trans.address); route.Route? ==> Reaches(bank.views, route, 0)
      modifies `bank, trans`address, trans`status, initiator`buffers, MemsOf(initiator)
      ensures Attached() && Grown()
      ensures Settled(old(bank.views), bank.views)
      ensures |bank.views| == |old(bank.views)|
      ensures forall j :: 0 <= j < |bank.views| ==> bank.views[j].flat == old(bank.views)[j].flat
      ensures trans.address ==
        match Routing().Direct(i, old(trans.address))
        case NoRoute => Add64(old(trans.address), ibases[i])
        case Route(_, addr) => addr
      ensures match Routing().Direct(i, old(trans.address))
        case NoRoute => !ok && dmi == dmi0 && trans.status == AddressError && bank == old(bank)
        case Route(idx, addr) =>
          && ok == initiator[idx].allowDmi && dmi == Routing().Translate(i, idx, d)
          && if ok then bank.views[idx].Grants(addr, d) else d == dmi0
    {
      hide Survey, KeepsPages, CellIn, FindRange, MemsOf, LutsOf, StorageOf, Add64, Sub64, View.Grants,
        View.Keeps, Settled;
      ghost var frame := FrameOf(initiator);
      var address := trans.address;
      if ibases[i] != 0 {
        address := Add64(address, ibases[i]);
      } else {
        AddZero(address);
      }
      var idx := addrDecoder.GetEntry(address);
      if idx == addrDecoder.nullEntry {
        if defaultIdx.None? {
          trans.address := address;
          trans.status := AddressError;
          SettledAlready(bank.views);
          return false, dmi0, dmi0;
        }
        idx := defaultIdx.value;
      }
      var offset := if tranges[idx].remap then tranges[idx].base else 0;
      trans.address := Sub64(address, offset);
      ghost var vs := bank.views;
      ok, dmi := AskTarget(idx, trans.address, dmi0);
      SettledFlats(vs, bank.views);
      d := dmi;
      var remapBase := if tranges[idx].remap then 0 else tranges[idx].base;
      var remapEnd := Add64(remapBase, tranges[idx].size);
      if tranges[idx].size != 0 && remapEnd >= remapBase && dmi.end >= remapEnd {
        dmi := dmi.(end := Sub64(remapEnd, 1));
      }
      dmi := dmi.(start := Add64(Sub64(dmi.start, ibases[i]), offset), end := Add64(Sub64(dmi.end, ibases[i]), offset));
    }

    /** A stored byte is where its cell says. */
    lemma CellHolds(idx: nat, a: nat, c: Cell)
      requires Attached() && idx < |initiator| && a < |bank.views[idx].flat| && bank.views[idx].CellOf(a) == Some(c)
      ensures c.buf in bank.storage && c.buf in initiator[idx].buffers
      ensures 0 <= c.off < c.buf.Length && c.buf[c.off] == bank.views[idx].flat[a]
    {
      SurveySplit(initiator, idx);
      initiator[idx].CellInBounds(a);
      initiator[idx].FlatAt(a);
      assert initiator[idx].CellOf(a) == Some(c);
    }

    /** A run of bytes of one target, from buf[off] on. */
    ghost predicate Run(idx: nat, adr: nat, n: nat, buf: array<Byte>, off: nat)
      requires idx < |bank.views|
      reads `bank
    {
      adr + n <= |bank.views[idx].flat| &&
      forall a {:trigger bank.views[idx].CellOf(a)} :: adr <= a < adr + n ==>
        bank.views[idx].CellOf(a) == Some(Cell(buf, off + a - adr))
    }

    /** std::copy into a run of bytes of one target. */
    method CopyToTarget(ghost idx: nat, ghost adr: nat, n: nat, buf: array<Byte>, off: nat, src: array<Byte>)
      requires Attached() && idx < |initiator| && Run(idx, adr, n, buf, off)
      requires n <= src.Length && src !in bank.storage && buf in initiator[idx].buffers && buf in bank.storage
      requires off + n <= buf.Length
      modifies `bank, buf
      ensures Attached() && bank.storage == old(bank.storage)
      ensures var v := old(bank.views)[idx];
        bank.views == old(bank.views)[idx := v.(flat := Overlay(v.flat, adr, old(src[..n]), None))]
    {
      hide Survey, Overlay, CellIn, StorageOf, MemsOf;
      ghost var frame := FrameOf(initiator);
      SurveySplit(initiator, idx);
      assert initiator[idx].Segment(adr, n, buf, off) by {
        forall a | adr <= a < adr + n ensures initiator[idx].CellOf(a) == Some(Cell(buf, off + a - adr)) {
          assert bank.views[idx].CellOf(a) == Some(Cell(buf, off + a - adr));
        }
      }
      CopyIn(initiator[idx], Except(initiator, idx), adr, n, buf, off, src);
      SurveySplit(initiator, idx);
      ghost var bank' := Survey(initiator).value;
      SameElsewhere(bank.views, bank'.views, idx);
      bank := bank';
    }

    /** Tell every initiator about an invalidated range of a target: the calls made, in order. */
    method InvalidateDirectMemPtr(id: nat, start: Word64, end: Word64) returns (calls: seq<(Word64, Word64)>)
      requires id < |tranges|
      ensures |calls| == |ibases|
      ensures forall i :: 0 <= i < |ibases| ==> calls[i] == (Routing().Back(i, id, start), Routing().Back(i, id, end))
    {
      var busStart, busEnd := start, end;
      if tranges[id].remap {
        busStart := Add64(busStart, tranges[id].base);
        busEnd := Add64(busEnd, tranges[id].base);
      }
      calls := [];
      for i := 0 to |ibases|
        invariant |calls| == i
        invariant forall k :: 0 <= k < i ==> calls[k] == (Sub64(busStart, ibases[k]), Sub64(busEnd, ibases[k]))
      {
        calls := calls + [(Sub64(busStart, ibases[i]), Sub64(busEnd, ibases[i]))];
      }
    }
  }

  lemma AddRange(s: State<nat>, ranges: set<Range<nat>>, n: Range<nat>, size: Word64)
    requires Tracks(s, ranges, NONE, SameIndex) && 1 <= size && n.first + size - 1 == n.last && n.index != NONE
    requires forall q :: q in ranges ==> q.first <= q.last && !Touches(q, n)
    ensures AddOutcome(s.lut, NONE, SameIndex, n.first, size) == Added
    ensures Tracks(State(Insert(s.lut, n.index, n.first, size), s.count + 1), ranges + {n}, NONE, SameIndex)
  {
    AddStaysDisjoint(ranges, n);
    AddDistinct(s.lut, ranges, NONE, SameIndex, n, size);
  }
}
