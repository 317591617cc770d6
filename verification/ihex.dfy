/** The Intel HEX reader and writer (src/common/util/ihex.cpp). */
module IntelHex {
  import opened Words
  import opened Options

  import Bits

  // ---------------------------------------------------------------------------
  // Digits and bytes

  const INVALID_HEX_CHAR := 'x' as int

  /** hex2dec: the letters g..z also get a value. */
  function HexValue(c: char): (v: nat)
    ensures v < 36 || v == INVALID_HEX_CHAR
  {
    if '0' <= c <= '9' then c as int - '0' as int
    else if 'A' <= c <= 'F' then c as int - 'A' as int + 10
    else if 'a' <= c <= 'z' then c as int - 'a' as int + 10
    else INVALID_HEX_CHAR
  }

  predicate IsHexDigit(c: char) {
    '0' <= c <= '9' || 'A' <= c <= 'F' || 'a' <= c <= 'f'
  }

  /** The digits in both cases have the values that they are read as. */
  lemma DigitValues(v: nat)
    requires v < 16
    ensures HexValue("0123456789ABCDEF"[v]) == v && HexValue("0123456789abcdef"[v]) == v
    ensures HexDigit(v) == "0123456789ABCDEF"[v]
    ensures forall c :: 'g' <= c <= 'z' ==> HexValue(c) == c as int - 'g' as int + 16
    ensures forall c :: !('0' <= c <= '9') && !('A' <= c <= 'F') && !('a' <= c <= 'z') ==> HexValue(c) == 120
  {
  }

  function HexDigit(v: nat): (c: char)
    requires v < 16
    ensures IsHexDigit(c) && HexValue(c) == v
  {
    if v < 10 then v as char + '0' else (v - 10) as char + 'A'
  }

  lemma OrHalf(a: nat, b: nat)
    ensures Bits.Or(2 * a, b) == 2 * Bits.Or(a, b / 2) + b % 2
  {
  }

  /** A cleared low nibble takes over the low nibble of the other operand. */
  lemma OrNibble(a: nat, i: nat)
    ensures Bits.Or(16 * a, i) == 16 * Bits.Or(a, i / 16) + i % 16
  {
    hide Bits.Or;
    OrHalf(8 * a, i);
    OrHalf(4 * a, i / 2);
    OrHalf(2 * a, i / 4);
    OrHalf(a, i / 8);
    assert i / 2 / 2 == i / 4 && i / 4 / 2 == i / 8 && i / 8 / 2 == i / 16;
  }

  /** v | m for a value m below four. */
  function OrTwoBits(v: nat, m: nat): nat
    requires m < 4
  {
    v + (if m % 2 == 1 && v % 2 == 0 then 1 else 0) + (if m / 2 == 1 && v / 2 % 2 == 0 then 2 else 0)
  }

  /** Shift in a digit, (v << 4) | i; only a letter beyond f reaches into v. */
  function Append(v: nat, i: nat): nat
    requires i < 64
  {
    if i < 16 then 16 * v + i else 16 * OrTwoBits(v, i / 16) + i % 16
  }

  lemma AppendIsOr(v: nat, i: nat)
    requires i < 64
    ensures Append(v, i) == Bits.Or(16 * v, i)
  {
    OrNibble(v, i);
    OrTwo(v, i / 16);
  }

  lemma OrTwo(v: nat, m: nat)
    requires m < 4
    ensures Bits.Or(v, m) == OrTwoBits(v, m)
  {
    OrStep(v, m);
    OrStep(v / 2, m / 2);
    assert m / 2 / 2 == 0;
  }

  lemma OrStep(a: nat, b: nat)
    ensures Bits.Or(a, b) == 2 * Bits.Or(a / 2, b / 2) + if a % 2 == 1 || b % 2 == 1 then 1 else 0
  {
  }

  function Be16(hi: Byte, lo: Byte): (w: nat)
    ensures w < 65536 && w / 256 == hi && w % 256 == lo
  {
    256 * hi + lo
  }

  function Sum(bytes: seq<Byte>): nat {
    if bytes == [] then 0 else Sum(bytes[..|bytes| - 1]) + bytes[|bytes| - 1]
  }

  // ---------------------------------------------------------------------------
  // The parser as a state machine

  const START_CODE := 0
  const BYTE_COUNT_0 := 1
  const ADDR_0 := 3
  const RECORD_TYPE_0 := 7
  const RECORD_TYPE_1 := 8
  const DATA_STATE := 9
  const CHECKSUM_0 := 10
  const CHECKSUM_1 := 11

  const DATA: Byte := 0
  const END_OF_FILE: Byte := 1
  const EXTENDED_SEGMENT_ADDRESS: Byte := 2
  const EXTENDED_LINEAR_ADDRESS: Byte := 4
  const START_LINEAR_ADDRESS: Byte := 5

  const IHEX_DATA_SIZE := 255

  datatype State = State(
    phase: nat, lo: nat, hi: nat, data: seq<Byte>, nibbles: nat, count: Byte, kind: Byte,
    sum: Byte, high: nat, highNext: bool, segment: bool)
  {
    predicate Valid() {
      && high < 64 && |data| == IHEX_DATA_SIZE && phase <= CHECKSUM_1
      && (START_CODE < phase < DATA_STATE ==> nibbles == 0)
      && (phase == DATA_STATE ==> nibbles / 2 < count)
    }
  }

  datatype Call = Call(addr: nat, bytes: seq<Byte>)
  type Callback = Call -> bool

  /** A parse in progress: the verdict is present once parse has returned. */
  datatype Progress = Progress(st: State, verdict: Option<bool>, calls: seq<Call>)

  function Zeros(n: nat): (z: seq<Byte>)
    ensures |z| == n && forall i :: 0 <= i < n ==> z[i] == 0
  {
    seq(n, i => 0)
  }

  const Initial := State(START_CODE, 0, 0, Zeros(IHEX_DATA_SIZE), 0, 0, DATA, 0, 0, true, false)

  function Address(st: State): nat {
    if st.segment then 16 * st.hi + st.lo else 65536 * st.hi + st.lo
  }

  function TakeDigit(st: State, i: nat): State
    requires i < 64 && st.high < 64
  {
    if st.highNext then st.(high := i, highNext := false)
    else st.(sum := (st.sum + Append(st.high, i)) % 256, highNext := true)
  }

  /** One turn of the parse loop. */
  function Advance(p: Progress, c: char, cb: Callback): (q: Progress)
    requires p.st.Valid() && p.verdict.None?
    ensures q.st.Valid()
  {
    if c == '\0' then p.(verdict := Some(true))
    else if p.st.phase == START_CODE then
      if c == '\r' || c == '\n' then p.(st := p.st.(sum := 0, highNext := true))
      else if c == ':' then
        p.(st := State(BYTE_COUNT_0, 0, p.st.hi, Zeros(IHEX_DATA_SIZE), 0, 0, DATA, 0, p.st.high, true, p.st.segment))
      else p.(verdict := Some(false))
    else if HexValue(c) == INVALID_HEX_CHAR then p.(verdict := Some(false))
    else Consume(p, HexValue(c), cb)
  }

  /** The switch over the states that read a digit. */
  function Consume(p: Progress, i: nat, cb: Callback): (q: Progress)
    requires p.st.Valid() && p.verdict.None? && p.st.phase != START_CODE && i < 64
    ensures q.st.Valid()
  {
    var st := TakeDigit(p.st, i);
    var reject := p.(verdict := Some(false));
    if st.phase < ADDR_0 then
      p.(st := st.(phase := st.phase + 1, count := Append(st.count, i) % 256))
    else if st.phase < RECORD_TYPE_0 then
      p.(st := st.(phase := st.phase + 1, lo := Append(st.lo, i) % 65536))
    else if st.phase == RECORD_TYPE_0 then
      if i != 0 then reject else p.(st := st.(phase := RECORD_TYPE_1))
    else if st.phase == RECORD_TYPE_1 then
      if i > START_LINEAR_ADDRESS then reject
      else p.(st := st.(kind := i, phase := if st.count == 0 then CHECKSUM_0 else DATA_STATE))
    else if st.phase == DATA_STATE then
      var b := st.nibbles / 2;
      var n := st.nibbles + 1;
      p.(st := st.(data := st.data[b := Append(st.data[b], i) % 256], nibbles := n,
                   phase := if n / 2 >= st.count then CHECKSUM_0 else DATA_STATE))
    else if st.phase == CHECKSUM_0 then p.(st := st.(phase := CHECKSUM_1))
    else Finish(p, st, cb)
  }

  /** The end of a record. */
  function Finish(p: Progress, st: State, cb: Callback): (q: Progress)
    requires p.st.Valid() && st.Valid()
    ensures q.st.Valid()
  {
    if 2 * st.count as int != st.nibbles || st.sum != 0 then p.(verdict := Some(false))
    else
      var done := st.(phase := START_CODE);
      var upper := Be16(st.data[0], st.data[1]);
      if st.kind == EXTENDED_SEGMENT_ADDRESS then p.(st := done.(hi := upper, segment := true))
      else if st.kind == EXTENDED_LINEAR_ADDRESS then p.(st := done.(hi := upper, segment := false))
      else if st.kind == DATA then
        var call := Call(Address(st), st.data[..st.nibbles / 2]);
        var called := p.(calls := p.calls + [call]);
        if cb(call) then called.(st := done) else called.(verdict := Some(false))
      else p.(st := done)
  }

  function Feed(p: Progress, s: string, cb: Callback): (q: Progress)
    requires p.st.Valid()
    ensures q.st.Valid()
    decreases s
  {
    if s == [] || p.verdict.Some? then p else Feed(Advance(p, s[0], cb), s[1..], cb)
  }

  lemma Refused(p: Progress, s: string, cb: Callback)
    requires p.st.Valid() && p.verdict == Some(false)
    ensures Feed(p, s, cb).verdict == Some(false)
  {
  }

  /** At the end of the stream the failed read leaves the previous character in place, so it is seen once more. */
  function Stream(input: string, stale: char): string {
    input + [if input == [] then stale else input[|input| - 1]]
  }

  method Parse(input: string, stale: char, cb: Callback) returns (ok: bool, calls: seq<Call>)
    ensures var p := Feed(Progress(Initial, None, []), Stream(input, stale), cb);
      calls == p.calls && ok == (p.verdict != Some(false))
  {
    var p, c := Progress(Initial, None, []), stale;
    var pos, eof := 0, false;
    ghost var rest := Stream(input, stale);
    while !eof
      invariant pos <= |input| && (eof ==> pos == |input|)
      invariant c == if pos == 0 then stale else input[pos - 1]
      invariant rest == if eof then [] else Stream(input, stale)[pos..]
      invariant p.verdict.None? && p.st.Valid()
      invariant Feed(Progress(Initial, None, []), Stream(input, stale), cb) == Feed(p, rest, cb)
      decreases |input| - pos, !eof
    {
      if pos < |input| { c, pos := input[pos], pos + 1; } else { eof := true; }
      assert c == rest[0] && rest[1..] == if eof then [] else Stream(input, stale)[pos..];
      rest := rest[1..];
      p := Advance(p, c, cb);
      if p.verdict.Some? {
        return p.verdict.value, p.calls;
      }
    }
    return true, p.calls;
  }

  // ---------------------------------------------------------------------------
  // What the parser makes of one line of digits

  predicate AllHex(h: string) {
    forall i :: 0 <= i < |h| ==> IsHexDigit(h[i])
  }

  /** The string spells the bytes, two hex digits each. */
  ghost predicate Spells(h: string, bs: seq<Byte>) {
    && AllHex(h) && |h| == 2 * |bs|
    && forall i :: 0 <= i < |bs| ==> bs[i] == 16 * HexValue(h[2 * i]) + HexValue(h[2 * i + 1])
  }

  /** Whatever hex2dec gives a value counts as a digit. */
  predicate IsDigit(c: char) {
    HexValue(c) < 36
  }

  /** The string reads as the bytes: these are what is stored and summed up, byte by byte, when letters beyond f count
    as digits too. */
  ghost predicate Reads(h: string, bs: seq<Byte>) {
    && (forall i :: 0 <= i < |h| ==> IsDigit(h[i])) && |h| == 2 * |bs|
    && forall i :: 0 <= i < |bs| ==> bs[i] == Append(HexValue(h[2 * i]), HexValue(h[2 * i + 1])) % 256
  }

  lemma SpellsReads(h: string, bs: seq<Byte>)
    requires Spells(h, bs)
    ensures Reads(h, bs)
  {
    forall i | 0 <= i < |bs| ensures bs[i] == Append(HexValue(h[2 * i]), HexValue(h[2 * i + 1])) % 256 {
      assert IsHexDigit(h[2 * i]) && IsHexDigit(h[2 * i + 1]);
    }
  }

  /** The two digits of the record type are not taken together: the first must be zero, the second at most five. */
  predicate KindDigits(h: string) {
    |h| >= 8 && HexValue(h[6]) == 0 && HexValue(h[7]) <= START_LINEAR_ADDRESS
  }

  /** Two more digits of an address. */
  function AddDigits(lo: nat, v1: nat, v2: nat): nat
    requires v1 < 64 && v2 < 64
  {
    Append(Append(lo, v1) % 65536, v2) % 65536
  }

  /** The address after k bytes.  Its four digits are shifted in one by one: bits of a letter that reach into the digit
    before it stay there. */
  function LoAt(h: string, k: nat): nat
    requires 2 * k <= |h| && forall i :: 0 <= i < |h| ==> IsDigit(h[i])
  {
    if k < 2 then 0
    else
      assert IsDigit(h[2]) && IsDigit(h[3]);
      var lo := AddDigits(0, HexValue(h[2]), HexValue(h[3]));
      if k == 2 then lo
      else
        assert IsDigit(h[4]) && IsDigit(h[5]);
        AddDigits(lo, HexValue(h[4]), HexValue(h[5]))
  }

  lemma SpellsAddress(h: string, bs: seq<Byte>)
    requires Spells(h, bs) && |bs| >= 3
    ensures Reads(h, bs) && LoAt(h, 3) == Be16(bs[1], bs[2])
  {
    SpellsReads(h, bs);
    assert bs[1] == 16 * HexValue(h[2 * 1]) + HexValue(h[2 * 1 + 1]);
    assert bs[2] == 16 * HexValue(h[2 * 2]) + HexValue(h[2 * 2 + 1]);
    assert IsHexDigit(h[2]) && IsHexDigit(h[3]) && IsHexDigit(h[4]) && IsHexDigit(h[5]);
    AddressDigits(0, HexValue(h[2]), HexValue(h[3]));
    AddressDigits(bs[1], HexValue(h[4]), HexValue(h[5]));
  }

  lemma AddressDigits(lo: nat, v1: nat, v2: nat)
    requires v1 < 16 && v2 < 16 && lo < 256
    ensures AddDigits(lo, v1, v2) == 256 * lo + 16 * v1 + v2
  {
  }

  lemma SpellsKind(h: string, bs: seq<Byte>)
    requires Spells(h, bs) && |bs| > 3
    ensures KindDigits(h) <==> bs[3] <= START_LINEAR_ADDRESS
  {
    assert bs[3] == 16 * HexValue(h[2 * 3]) + HexValue(h[2 * 3 + 1]);
    assert IsHexDigit(h[6]) && IsHexDigit(h[7]);
  }

  lemma ReadsKind(h: string, bs: seq<Byte>)
    requires Reads(h, bs) && |bs| > 3 && KindDigits(h)
    ensures bs[3] == HexValue(h[7])
  {
    assert bs[3] == Append(HexValue(h[2 * 3]), HexValue(h[2 * 3 + 1])) % 256;
  }

  /** A well-formed record: the count matches, the type is known and the bytes sum to zero. */
  predicate IsRecord(bs: seq<Byte>) {
    |bs| >= 5 && |bs| - 5 == bs[0] && bs[3] <= START_LINEAR_ADDRESS && Sum(bs) % 256 == 0
  }

  function Fill(d: seq<Byte>): (r: seq<Byte>)
    requires |d| <= IHEX_DATA_SIZE
    ensures |r| == IHEX_DATA_SIZE
  {
    d + Zeros(IHEX_DATA_SIZE - |d|)
  }

  function PhaseAt(bs: seq<Byte>, k: nat): nat
    requires k <= |bs|
  {
    if k == 0 then BYTE_COUNT_0
    else if k < 4 then 2 * k + 1
    else if k - 4 == bs[0] then CHECKSUM_0
    else DATA_STATE
  }

  /** The state after a colon and the first k bytes of a record, with the address lo so far. */
  function Mid(st: State, bs: seq<Byte>, k: nat, lo: nat, high: nat): (r: State)
    requires k <= |bs| && (k > 0 ==> k - 4 <= bs[0]) && high < 64
    ensures r.Valid()
  {
    State(PhaseAt(bs, k), lo, st.hi, if k > 4 then Fill(bs[4..k]) else Zeros(IHEX_DATA_SIZE),
          if k > 4 then 2 * (k - 4) else 0, if k > 0 then bs[0] else 0, if k > 3 then bs[3] else DATA,
          Sum(bs[..k]) % 256, high, true, st.segment)
  }

  /** The sum takes an unreduced byte as well. */
  lemma SumNext(bs: seq<Byte>, k: nat, x: nat)
    requires k < |bs| && bs[k] == x % 256
    ensures Sum(bs[..k + 1]) == Sum(bs[..k]) + bs[k]
    ensures (Sum(bs[..k]) % 256 + x) % 256 == Sum(bs[..k + 1]) % 256
  {
    assert bs[..k + 1][..k] == bs[..k];
    ModSum(Sum(bs[..k]), x, Sum(bs[..k + 1]));
  }

  lemma ModSum(t: nat, x: nat, u: nat)
    requires u == t + x % 256
    ensures (t % 256 + x) % 256 == u % 256
  {
    assert (t % 256 + x) - u == 256 * (x / 256 - t / 256);
  }

  lemma FeedOne(p: Progress, c: char, s: string, cb: Callback)
    requires p.st.Valid() && p.verdict.None?
    ensures Feed(p, [c] + s, cb) == Feed(Advance(p, c, cb), s, cb)
    ensures Advance(p, c, cb).verdict.Some? ==> Feed(p, [c] + s, cb) == Advance(p, c, cb)
  {
    assert ([c] + s)[1..] == s;
  }

  lemma AdvanceDigit(p: Progress, c: char, cb: Callback)
    requires p.st.Valid() && p.verdict.None? && p.st.phase != START_CODE && IsDigit(c)
    ensures Advance(p, c, cb) == Consume(p, HexValue(c), cb)
  {
  }

  /** Two digits in the middle of a record. */
  lemma FeedTwo(p: Progress, c1: char, c2: char, s: string, cb: Callback)
    requires p.st.Valid() && p.verdict.None? && p.st.phase != START_CODE && IsDigit(c1) && IsDigit(c2)
    requires var p1 := Consume(p, HexValue(c1), cb); p1.verdict.None? && p1.st.phase != START_CODE
    ensures Feed(p, [c1, c2] + s, cb) == Feed(Consume(Consume(p, HexValue(c1), cb), HexValue(c2), cb), s, cb)
  {
    AdvanceDigit(p, c1, cb);
    AdvanceDigit(Advance(p, c1, cb), c2, cb);
    assert [c1, c2] + s == [c1] + ([c2] + s);
    FeedOne(p, c1, [c2] + s, cb);
    FeedOne(Advance(p, c1, cb), c2, s, cb);
  }

  ghost predicate AtByte(p: Progress, st: State, bs: seq<Byte>, k: nat, lo: nat, v1: nat, v2: nat) {
    && v1 < 36 && v2 < 36 && k < |bs| && (k > 0 ==> k - 4 < bs[0])
    && (k == 3 ==> v1 == 0 && v2 <= START_LINEAR_ADDRESS) && (k < 2 ==> lo == 0)
    && p.verdict.None? && p.st.high < 64 && p.st == Mid(st, bs, k, lo, p.st.high)
    && bs[k] == Append(v1, v2) % 256
  }

  lemma FirstDigit(v: nat)
    requires v < 64
    ensures Append(0, v) == v
  {
  }

  lemma ConsumeCount(p: Progress, st: State, bs: seq<Byte>, k: nat, lo: nat, v1: nat, v2: nat, cb: Callback)
    requires AtByte(p, st, bs, k, lo, v1, v2) && k == 0
    ensures Consume(p, v1, cb).verdict.None? && Consume(p, v1, cb).st.phase != START_CODE
    ensures Consume(Consume(p, v1, cb), v2, cb) == p.(st := Mid(st, bs, k + 1, lo, v1))
  {
    hide Append;
    var p1 := Consume(p, v1, cb);
    FirstDigit(v1);
    assert Consume(p1, v2, cb).st.sum == (p.st.sum + Append(v1, v2)) % 256;
    SumNext(bs, k, Append(v1, v2));
  }

  lemma ConsumeAddress(p: Progress, st: State, bs: seq<Byte>, k: nat, lo: nat, v1: nat, v2: nat, cb: Callback)
    requires AtByte(p, st, bs, k, lo, v1, v2) && 1 <= k < 3
    ensures Consume(p, v1, cb).verdict.None? && Consume(p, v1, cb).st.phase != START_CODE
    ensures Consume(Consume(p, v1, cb), v2, cb) == p.(st := Mid(st, bs, k + 1, AddDigits(lo, v1, v2), v1))
  {
    hide Append;
    var p1 := Consume(p, v1, cb);
    assert Consume(p1, v2, cb).st.sum == (p.st.sum + Append(v1, v2)) % 256;
    SumNext(bs, k, Append(v1, v2));
  }

  lemma ConsumeKind(p: Progress, st: State, bs: seq<Byte>, k: nat, lo: nat, v1: nat, v2: nat, cb: Callback)
    requires AtByte(p, st, bs, k, lo, v1, v2) && k == 3
    ensures Consume(p, v1, cb).verdict.None? && Consume(p, v1, cb).st.phase != START_CODE
    ensures Consume(Consume(p, v1, cb), v2, cb) == p.(st := Mid(st, bs, k + 1, lo, v1))
  {
    var p1 := Consume(p, v1, cb);
    assert p1 == p.(st := p.st.(phase := RECORD_TYPE_1, high := v1, highNext := false));
    assert Append(v1, v2) == bs[k];
    assert Consume(p1, v2, cb).st.sum == (p.st.sum + Append(v1, v2)) % 256;
    SumNext(bs, k, Append(v1, v2));
  }

  lemma ConsumeData(p: Progress, st: State, bs: seq<Byte>, k: nat, lo: nat, v1: nat, v2: nat, cb: Callback)
    requires AtByte(p, st, bs, k, lo, v1, v2) && k >= 4
    ensures Consume(p, v1, cb).verdict.None? && Consume(p, v1, cb).st.phase != START_CODE
    ensures Consume(Consume(p, v1, cb), v2, cb) == p.(st := Mid(st, bs, k + 1, lo, v1))
  {
    hide Append, Sum, Fill;
    var p1 := Consume(p, v1, cb);
    FirstDigit(v1);
    assert bs[4..k + 1] == bs[4..k] + [bs[k]];
    FillNext(bs[4..k], bs[k]);
    assert p1.st == TakeDigit(p.st, v1).(data := p.st.data[k - 4 := v1], nibbles := 2 * (k - 4) + 1);
    assert Consume(p1, v2, cb).st.sum == (p.st.sum + Append(v1, v2)) % 256;
    SumNext(bs, k, Append(v1, v2));
  }

  lemma FillNext(d: seq<Byte>, b: Byte)
    requires |d| < IHEX_DATA_SIZE
    ensures Fill([]) == Zeros(IHEX_DATA_SIZE)
    ensures Fill(d)[|d|] == 0 && Fill(d)[|d| := b] == Fill(d + [b])
  {
  }

  lemma FeedByte(p: Progress, st: State, bs: seq<Byte>, k: nat, lo: nat, c1: char, c2: char, s: string, cb: Callback)
    requires IsDigit(c1) && IsDigit(c2) && AtByte(p, st, bs, k, lo, HexValue(c1), HexValue(c2))
    ensures var lo' := if 1 <= k < 3 then AddDigits(lo, HexValue(c1), HexValue(c2)) else lo;
      Feed(p, [c1, c2] + s, cb) == Feed(p.(st := Mid(st, bs, k + 1, lo', HexValue(c1))), s, cb)
  {
    hide Append, AddDigits;
    var v1, v2 := HexValue(c1), HexValue(c2);
    if k == 0 { ConsumeCount(p, st, bs, k, lo, v1, v2, cb); }
    else if k < 3 { ConsumeAddress(p, st, bs, k, lo, v1, v2, cb); }
    else if k == 3 { ConsumeKind(p, st, bs, k, lo, v1, v2, cb); }
    else { ConsumeData(p, st, bs, k, lo, v1, v2, cb); }
    FeedTwo(p, c1, c2, s, cb);
  }

  lemma PeelByte(h: string, k: nat, s: string)
    requires 2 * k + 1 < |h|
    ensures h[2 * k..] + s == [h[2 * k], h[2 * k + 1]] + (h[2 * (k + 1)..] + s)
  {
  }

  lemma NextByte(p: Progress, st: State, h: string, bs: seq<Byte>, k: nat)
    requires Reads(h, bs) && k < |bs| && (k > 0 ==> k - 4 < bs[0]) && (k == 3 ==> KindDigits(h))
    requires p.verdict.None? && p.st.high < 64 && p.st == Mid(st, bs, k, LoAt(h, k), p.st.high)
    ensures AtByte(p, st, bs, k, LoAt(h, k), HexValue(h[2 * k]), HexValue(h[2 * k + 1]))
    ensures IsDigit(h[2 * k]) && IsDigit(h[2 * k + 1])
    ensures LoAt(h, k + 1) ==
      if 1 <= k < 3 then AddDigits(LoAt(h, k), HexValue(h[2 * k]), HexValue(h[2 * k + 1])) else LoAt(h, k)
  {
    hide Append, AddDigits, Mid, HexValue;
    assert IsDigit(h[2 * k]) && IsDigit(h[2 * k + 1]);
  }

  /** Reading the digits of a record up to byte m, as far as no byte can be refused. */
  lemma {:induction false} FeedBytes(p: Progress, st: State, h: string, bs: seq<Byte>, k: nat, m: nat, s: string,
                                     cb: Callback)
      returns (q: Progress)
    requires Reads(h, bs) && k <= m <= |bs| && (m > 0 ==> m - 4 <= bs[0]) && (m > 3 ==> KindDigits(h))
    requires p.verdict.None? && p.st.high < 64 && p.st == Mid(st, bs, k, LoAt(h, k), p.st.high)
    ensures q.verdict.None? && q.st.high < 64 && q.st == Mid(st, bs, m, LoAt(h, m), q.st.high)
    ensures q.calls == p.calls
    ensures Feed(p, h[2 * k..] + s, cb) == Feed(q, h[2 * m..] + s, cb)
    decreases m - k
  {
    hide Append, AddDigits, HexValue, AtByte, Feed, LoAt, PhaseAt, Fill, Sum;
    if k == m { return p; }
    PeelByte(h, k, s);
    NextByte(p, st, h, bs, k);
    FeedByte(p, st, bs, k, LoAt(h, k), h[2 * k], h[2 * k + 1], h[2 * (k + 1)..] + s, cb);
    q := FeedBytes(p.(st := Mid(st, bs, k + 1, LoAt(h, k + 1), HexValue(h[2 * k]))), st, h, bs, k + 1, m, s, cb);
  }

  function Line(h: string): string {
    [':'] + h + ['\n']
  }

  function DataOf(bs: seq<Byte>): seq<Byte>
    requires IsRecord(bs)
  {
    Fill(bs[4..|bs| - 1])
  }

  function CallOf(st: State, bs: seq<Byte>, lo: nat): Call
    requires IsRecord(bs)
  {
    Call(Address(st.(lo := lo)), bs[4..|bs| - 1])
  }

  /** What a well-formed record does: a data record is handed to the callback, an address record moves the base. */
  ghost predicate Performs(p: Progress, bs: seq<Byte>, q: Progress, cb: Callback)
    requires IsRecord(bs)
  {
    PerformsAt(p, bs, Be16(bs[1], bs[2]), q, cb)
  }

  ghost predicate PerformsAt(p: Progress, bs: seq<Byte>, lo: nat, q: Progress, cb: Callback)
    requires IsRecord(bs)
  {
    && q.st.Valid()
    && (if bs[3] == DATA then q.calls == p.calls + [CallOf(p.st, bs, lo)] else q.calls == p.calls)
    && (if bs[3] == DATA && !cb(CallOf(p.st, bs, lo)) then q.verdict == Some(false)
        else q.verdict.None? && q.st.phase == START_CODE)
    && (if bs[3] == EXTENDED_SEGMENT_ADDRESS || bs[3] == EXTENDED_LINEAR_ADDRESS then
          q.st.hi == Be16(DataOf(bs)[0], DataOf(bs)[1]) && q.st.segment == (bs[3] == EXTENDED_SEGMENT_ADDRESS)
        else q.st.hi == p.st.hi && q.st.segment == p.st.segment)
  }

  lemma FinishPerforms(p0: Progress, p: Progress, st: State, bs: seq<Byte>, cb: Callback)
    requires p0.calls == p.calls && p0.st.hi == p.st.hi && p0.st.segment == p.st.segment
    requires p.st.Valid() && p.verdict.None? && st.Valid() && |bs| >= 5 && |bs| - 5 == bs[0]
    requires bs[3] <= START_LINEAR_ADDRESS
    requires st.count == bs[0] && st.kind == bs[3] && st.sum == Sum(bs) % 256
    requires st.hi == p.st.hi && st.segment == p.st.segment
    requires st.nibbles == 2 * (|bs| - 5) && st.data == Fill(bs[4..|bs| - 1])
    ensures if IsRecord(bs) then PerformsAt(p0, bs, st.lo, Finish(p, st, cb), cb)
      else Finish(p, st, cb).verdict == Some(false)
  {
    assert 2 * st.count as int == st.nibbles && st.nibbles / 2 == |bs| - 5;
    if IsRecord(bs) {
      assert st.data[..|bs| - 5] == bs[4..|bs| - 1];
      assert Call(Address(st), st.data[..st.nibbles / 2]) == CallOf(p0.st, bs, st.lo);
    }
  }

  /** The state in which the switch reaches the end of a record. */
  function LastState(st: State, bs: seq<Byte>, k: nat, lo: nat, v1: nat): State
    requires 4 <= k < |bs| && k - 4 == bs[0]
  {
    State(CHECKSUM_1, lo, st.hi, Fill(bs[4..k]), 2 * (k - 4), bs[0], bs[3], Sum(bs[..k + 1]) % 256, v1, true,
      st.segment)
  }

  lemma ConsumeChecksum(p: Progress, st: State, bs: seq<Byte>, k: nat, lo: nat, v1: nat, v2: nat, cb: Callback)
    requires 4 <= k < |bs| && k - 4 == bs[0] && v1 < 36 && v2 < 36 && bs[k] == Append(v1, v2) % 256
    requires p.verdict.None? && p.st.high < 64 && p.st == Mid(st, bs, k, lo, p.st.high)
    ensures var p1 := p.(st := p.st.(phase := CHECKSUM_1, high := v1, highNext := false));
      Consume(p, v1, cb) == p1 && TakeDigit(p1.st, v2) == LastState(st, bs, k, lo, v1)
  {
    hide Append;
    FillNext([], 0);
    assert k == 4 ==> bs[4..k] == [];
    SumNext(bs, k, Append(v1, v2));
  }

  /** The two checksum digits, whatever follows them. */
  lemma FeedChecksum(p0: Progress, p: Progress, bs: seq<Byte>, k: nat, lo: nat, c1: char, c2: char, s: string,
                     cb: Callback)
    returns (q: Progress)
    requires 4 <= k < |bs| && k - 4 == bs[0] && bs[3] <= START_LINEAR_ADDRESS
    requires p.verdict.None? && p.st.high < 64 && p.st == Mid(p0.st, bs, k, lo, p.st.high) && p.calls == p0.calls
    requires IsDigit(c1) && IsDigit(c2) && bs[k] == Append(HexValue(c1), HexValue(c2)) % 256
    ensures q.st.Valid() && Feed(p, [c1, c2] + s, cb) == Feed(q, s, cb)
    ensures if IsRecord(bs[..k + 1]) then PerformsAt(p0, bs[..k + 1], lo, q, cb) else q.verdict == Some(false)
  {
    hide Append;
    var v1, v2 := HexValue(c1), HexValue(c2);
    ConsumeChecksum(p, p0.st, bs, k, lo, v1, v2, cb);
    FeedTwo(p, c1, c2, s, cb);
    var p1 := Consume(p, v1, cb);
    q := Consume(p1, v2, cb);
    assert q == Finish(p1, LastState(p0.st, bs, k, lo, v1), cb);
    assert bs[..k + 1][4..k] == bs[4..k];
    FinishPerforms(p0, p1, LastState(p0.st, bs, k, lo, v1), bs[..k + 1], cb);
  }

  lemma FeedColon(p: Progress, h: string, bs: seq<Byte>, s: string, cb: Callback) returns (q: Progress)
    requires p.verdict.None? && p.st.Valid() && p.st.phase == START_CODE
    ensures q == p.(st := Mid(p.st, bs, 0, 0, p.st.high))
    ensures Feed(p, Line(h) + s, cb) == Feed(q, h + (['\n'] + s), cb)
  {
    assert Line(h) + s == [':'] + (h + (['\n'] + s));
    FeedOne(p, ':', h + (['\n'] + s), cb);
    q := p.(st := Mid(p.st, bs, 0, 0, p.st.high));
    assert Advance(p, ':', cb) == q;
  }

  /** A record type with a first digit other than zero, or a second above five, is refused. */
  lemma BadKind(p: Progress, st: State, bs: seq<Byte>, lo: nat, c1: char, c2: char, s: string, cb: Callback)
    requires |bs| > 3 && IsDigit(c1) && IsDigit(c2) && (HexValue(c1) > 0 || HexValue(c2) > START_LINEAR_ADDRESS)
    requires p.verdict.None? && p.st.high < 64 && p.st == Mid(st, bs, 3, lo, p.st.high)
    ensures Feed(p, [c1, c2] + s, cb).verdict == Some(false)
  {
    AdvanceDigit(p, c1, cb);
    assert [c1, c2] + s == [c1] + ([c2] + s);
    FeedOne(p, c1, [c2] + s, cb);
    var p1 := Advance(p, c1, cb);
    if HexValue(c1) == 0 {
      assert p1.st.phase == RECORD_TYPE_1;
      AdvanceDigit(p1, c2, cb);
      FeedOne(p1, c2, s, cb);
    }
  }

  /** Inside a record a newline is refused; between records any digit is. */
  lemma BadNext(p: Progress, c: char, s: string, cb: Callback)
    requires p.st.Valid() && (p.verdict.Some? ==> p.verdict == Some(false))
    requires p.verdict.None? ==> if p.st.phase == START_CODE then IsDigit(c) else c == '\n'
    ensures Feed(p, [c] + s, cb).verdict == Some(false)
  {
    if p.verdict.None? {
      FeedOne(p, c, s, cb);
      assert Advance(p, c, cb).verdict == Some(false);
    }
  }

  lemma FeedNewline(p: Progress, bs: seq<Byte>, lo: nat, q: Progress, s: string, cb: Callback) returns (r: Progress)
    requires IsRecord(bs) && PerformsAt(p, bs, lo, q, cb)
    ensures PerformsAt(p, bs, lo, r, cb) && Feed(q, ['\n'] + s, cb) == Feed(r, s, cb)
  {
    if q.verdict.Some? { return q; }
    FeedOne(q, '\n', s, cb);
    r := Advance(q, '\n', cb);
  }

  /** The line ends before the record does, or names an unknown type. */
  lemma ShortLine(p: Progress, q0: Progress, h: string, bs: seq<Byte>, s: string, cb: Callback)
    requires Reads(h, bs) && (|bs| == 0 || |bs| - 5 < bs[0] || !KindDigits(h))
    requires q0.verdict.None? && q0.st.high < 64 && q0.st == Mid(p.st, bs, 0, 0, q0.st.high)
    ensures Feed(q0, h + (['\n'] + s), cb).verdict == Some(false)
  {
    hide Append, AddDigits, Feed;
    var t := ['\n'] + s;
    assert h[2 * 0..] == h;
    if |bs| > 3 && !KindDigits(h) {
      var q := FeedBytes(q0, p.st, h, bs, 0, 3, t, cb);
      PeelByte(h, 3, t);
      BadKind(q, p.st, bs, LoAt(h, 3), h[6], h[7], h[8..] + t, cb);
    } else {
      var q := FeedBytes(q0, p.st, h, bs, 0, |bs|, t, cb);
      assert h[2 * |bs|..] + t == t;
      BadNext(q, '\n', s, cb);
    }
  }

  /** What follows the checksum digits must be the newline. */
  lemma AfterChecksum(p: Progress, h: string, bs: seq<Byte>, k: nat, s: string, cb: Callback)
    requires Reads(h, bs) && k < |bs|
    requires p.st.Valid() && (p.verdict.Some? ==> p.verdict == Some(false))
    requires p.verdict.None? ==> p.st.phase == START_CODE
    ensures Feed(p, h[2 * k..] + (['\n'] + s), cb).verdict == Some(false)
  {
    var t := ['\n'] + s;
    PeelByte(h, k, t);
    var c, u := h[2 * k], [h[2 * k + 1]] + (h[2 * (k + 1)..] + t);
    assert h[2 * k..] + t == [c] + u;
    BadNext(p, c, u, cb);
  }

  /** The line is at least as long as its record. */
  lemma LongLine(p: Progress, q0: Progress, h: string, bs: seq<Byte>, s: string, cb: Callback) returns (q: Progress)
    requires Reads(h, bs) && |bs| >= 5 && |bs| - 5 >= bs[0] && KindDigits(h) && bs[3] <= START_LINEAR_ADDRESS
    requires q0.verdict.None? && q0.st.high < 64 && q0.st == Mid(p.st, bs, 0, 0, q0.st.high) && q0.calls == p.calls
    ensures IsRecord(bs) ==>
      PerformsAt(p, bs, LoAt(h, 3), q, cb) && Feed(q0, h + (['\n'] + s), cb) == Feed(q, ['\n'] + s, cb)
    ensures !IsRecord(bs) ==> Feed(q0, h + (['\n'] + s), cb).verdict == Some(false)
  {
    hide Append, AddDigits, Mid, HexValue, Feed;
    var t, m := ['\n'] + s, 4 + bs[0] as nat;
    assert h[2 * 0..] == h && LoAt(h, 0) == 0 && LoAt(h, m) == LoAt(h, 3);
    var q1 := FeedBytes(q0, p.st, h, bs, 0, m, t, cb);
    PeelByte(h, m, t);
    assert IsDigit(h[2 * m]) && IsDigit(h[2 * m + 1]);
    q := FeedChecksum(p, q1, bs, m, LoAt(h, 3), h[2 * m], h[2 * m + 1], h[2 * (m + 1)..] + t, cb);
    if m + 1 < |bs| {
      AfterChecksum(q, h, bs, m + 1, s, cb);
    } else {
      assert bs[..m + 1] == bs && h[2 * (m + 1)..] + t == t;
      if !IsRecord(bs) { Refused(q, t, cb); }
    }
  }

  /** A line of digits, letters beyond f among them or not, is taken exactly when it reads as a record and its type is
    written in plain digits; any other makes the parser return false.  The address is what its digits shift together. */
  lemma DigitsVerdict(p: Progress, h: string, bs: seq<Byte>, s: string, cb: Callback) returns (r: Progress)
    requires p.verdict.None? && p.st.Valid() && p.st.phase == START_CODE && Reads(h, bs)
    ensures IsRecord(bs) && KindDigits(h) ==>
      PerformsAt(p, bs, LoAt(h, 3), r, cb) && Feed(p, Line(h) + s, cb) == Feed(r, s, cb)
    ensures !(IsRecord(bs) && KindDigits(h)) ==> Feed(p, Line(h) + s, cb).verdict == Some(false)
  {
    hide Append, AddDigits, Feed, LoAt;
    var q0 := FeedColon(p, h, bs, s, cb);
    if |bs| == 0 || |bs| - 5 < bs[0] || !KindDigits(h) {
      ShortLine(p, q0, h, bs, s, cb);
      r := p;
    } else {
      ReadsKind(h, bs);
      var q := LongLine(p, q0, h, bs, s, cb);
      if IsRecord(bs) {
        r := FeedNewline(p, bs, LoAt(h, 3), q, s, cb);
      } else {
        r := p;
      }
    }
  }

  /** A line of hex digits is taken exactly when it is a record; any other line makes the parser return false. */
  lemma LineVerdict(p: Progress, h: string, bs: seq<Byte>, s: string, cb: Callback) returns (r: Progress)
    requires p.verdict.None? && p.st.Valid() && p.st.phase == START_CODE && Spells(h, bs)
    ensures IsRecord(bs) ==> Performs(p, bs, r, cb) && Feed(p, Line(h) + s, cb) == Feed(r, s, cb)
    ensures !IsRecord(bs) ==> Feed(p, Line(h) + s, cb).verdict == Some(false)
  {
    hide Feed, Append;
    SpellsReads(h, bs);
    if |bs| > 3 {
      SpellsKind(h, bs);
      SpellsAddress(h, bs);
    }
    r := DigitsVerdict(p, h, bs, s, cb);
  }

  // ---------------------------------------------------------------------------
  // The writer

  datatype RecordFields = Record(kind: Byte, addr: nat, data: seq<Byte>)
  type Record = r: RecordFields | r.kind <= START_LINEAR_ADDRESS && r.addr < 65536 && |r.data| <= 255
    witness Record(0, 0, [])

  function Payload(r: Record): seq<Byte>
  {
    [|r.data|, r.addr / 256, r.addr % 256, r.kind] + r.data
  }

  /** Two's complement of the low byte of the sum. */
  function Checksum(bs: seq<Byte>): Byte {
    (256 - Sum(bs) % 256) % 256
  }

  function Complete(r: Record): seq<Byte>
  {
    Payload(r) + [Checksum(Payload(r))]
  }

  /** std::hex << std::uppercase << v */
  function HexNumber(v: nat): string {
    if v < 16 then [HexDigit(v)] else HexNumber(v / 16) + [HexDigit(v % 16)]
  }

  /** std::setfill('0') << std::setw(w) << v */
  function Setw(w: nat, v: nat): string {
    var d := HexNumber(v);
    seq(if |d| < w then w - |d| else 0, i => '0') + d
  }

  function HexOf(bs: seq<Byte>): (h: string)
    ensures |h| == 2 * |bs|
  {
    seq(2 * |bs|, i requires 0 <= i < 2 * |bs| => HexDigit(if i % 2 == 0 then bs[i / 2] / 16 else bs[i / 2] % 16))
  }

  lemma HexOfSpells(bs: seq<Byte>)
    ensures Spells(HexOf(bs), bs)
  {
    forall i | 0 <= i < |bs| ensures bs[i] == 16 * HexValue(HexOf(bs)[2 * i]) + HexValue(HexOf(bs)[2 * i + 1]) {
    }
  }

  lemma HexOfConcat(a: seq<Byte>, b: seq<Byte>)
    ensures HexOf(a + b) == HexOf(a) + HexOf(b)
  {
    forall i | 0 <= i < 2 * |a + b| ensures HexOf(a + b)[i] == (HexOf(a) + HexOf(b))[i] {
      assert (i - 2 * |a|) / 2 == i / 2 - |a| && (i - 2 * |a|) % 2 == i % 2;
    }
  }

  lemma SetwByte(b: Byte)
    ensures Setw(2, b) == HexOf([b])
  {
    assert [b][..0] == [];
    assert HexOf([b]) == [HexDigit(b / 16), HexDigit(b % 16)];
    if b < 16 {
      assert Setw(2, b) == ['0'] + [HexDigit(b)];
    } else {
      assert HexNumber(b) == [HexDigit(b / 16)] + [HexDigit(b % 16)];
    }
  }

  lemma SetwWord(w: nat)
    requires w < 65536
    ensures Setw(4, w) == HexOf([w / 256, w % 256])
  {
    var hi, lo := w / 256, w % 256;
    SetwByte(hi);
    SetwByte(lo);
    HexOfConcat([hi], [lo]);
    assert [hi] + [lo] == [hi, lo];
    HexNumberWord(w);
  }

  /** The digits of a word are those of its high byte, then both of its low byte. */
  lemma HexNumberWord(w: nat)
    requires w < 65536
    ensures w >= 256 ==> HexNumber(w) == HexNumber(w / 256) + Setw(2, w % 256)
    ensures w < 256 ==> Setw(4, w) == ['0', '0'] + Setw(2, w)
    ensures w >= 256 ==> |HexNumber(w / 256)| == if w < 4096 then 1 else 2
  {
    if w >= 256 {
      assert w / 16 / 16 == w / 256 && w / 16 % 16 == w % 256 / 16 && w % 16 == w % 256 % 16;
      assert HexNumber(w) == HexNumber(w / 256) + [HexDigit(w % 256 / 16)] + [HexDigit(w % 256 % 16)];
      SetwByte(w % 256);
      assert [w % 256][..0] == [];
    } else if w < 16 {
      assert Setw(4, w) == ['0', '0', '0'] + [HexDigit(w)];
      assert Setw(2, w) == ['0'] + [HexDigit(w)];
    } else {
      assert |HexNumber(w)| == 2;
    }
  }

  lemma HexOfNext(bs: seq<Byte>, k: nat)
    requires k < |bs|
    ensures HexOf(bs[..k + 1]) == HexOf(bs[..k]) + Setw(2, bs[k])
  {
    SetwByte(bs[k]);
    HexOfConcat(bs[..k], [bs[k]]);
    assert bs[..k] + [bs[k]] == bs[..k + 1];
  }

  method IhexChecksum(bytes: seq<Byte>) returns (c: Byte)
    ensures c == Checksum(bytes)
    ensures (Sum(bytes) + c as int) % 256 == 0
  {
    var sum: nat := 0;
    for i := 0 to |bytes|
      invariant sum == Sum(bytes[..i])
    {
      SumNext(bytes, i, bytes[i]);
      sum := sum + bytes[i];
    }
    assert bytes[..|bytes|] == bytes;
    c := (256 - sum % 256) % 256;
    ComplementCancels(sum);
  }

  lemma ComplementCancels(s: nat)
    ensures (s + (256 - s % 256) % 256) % 256 == 0
  {
  }

  method BuildPayload(kind: Byte, addr: nat, data: seq<Byte>) returns (payload: seq<Byte>)
    requires kind <= START_LINEAR_ADDRESS && addr < 65536 && |data| <= 255
    ensures payload == Payload(Record(kind, addr, data))
  {
    payload := [|data|, addr / 256, addr % 256, kind];
    for i := 0 to |data|
      invariant payload == [|data|, addr / 256, addr % 256, kind] + data[..i]
    {
      payload := payload + [data[i]];
    }
  }

  method WriteBytes(os: string, bytes: seq<Byte>) returns (text: string)
    ensures text == os + HexOf(bytes)
  {
    text := os;
    for i := 0 to |bytes|
      invariant text == os + HexOf(bytes[..i])
    {
      HexOfNext(bytes, i);
      text := text + Setw(2, bytes[i]);
    }
    assert bytes[..|bytes|] == bytes;
  }

  /** write_record appends one line to what is written. */
  method WriteRecord(os: string, ghost done: seq<string>, kind: Byte, addr: nat, data: seq<Byte>) returns (text: string)
    requires kind <= START_LINEAR_ADDRESS && addr < 65536 && |data| <= 255
    requires os == Text(done)
    ensures text == Text(done + [LineOf(Record(kind, addr, data))])
  {
    ghost var r: Record := Record(kind, addr, data);
    var payload := BuildPayload(kind, addr, data);
    var csum := IhexChecksum(payload);
    text := os + [':'] + Setw(2, |data|) + Setw(4, addr) + Setw(2, kind);
    text := WriteBytes(text, data);
    text := text + Setw(2, csum) + ['\n'];
    LineText(r, csum);
    JoinLine(os, Setw(2, |data|), Setw(4, addr), Setw(2, kind), HexOf(data), Setw(2, csum));
    assert (done + [LineOf(r)])[..|done|] == done;
  }

  lemma JoinLine(os: string, a: string, b: string, c: string, d: string, e: string)
    ensures os + [':'] + a + b + c + d + e + ['\n'] == os + Line(a + b + c + d + e)
  {
  }

  lemma LineText(r: Record, csum: Byte)
    requires csum == Checksum(Payload(r))
    ensures Setw(2, |r.data|) + Setw(4, r.addr) + Setw(2, r.kind) + HexOf(r.data) + Setw(2, csum) == HexOf(Complete(r))
  {
    var a, b, c: seq<Byte> := [|r.data|], [r.addr / 256, r.addr % 256], [r.kind];
    assert Payload(r) == a + b + c + r.data;
    SetwByte(|r.data|);
    SetwWord(r.addr);
    SetwByte(r.kind);
    SetwByte(csum);
    HexOfConcat(a, b);
    HexOfConcat(a + b, c);
    HexOfConcat(a + b + c, r.data);
    HexOfConcat(Payload(r), [csum]);
  }

  function LineOf(r: Record): string {
    HexOf(Complete(r))
  }

  const NO_UPPER: nat := 0xFFFF_FFFF

  function ChunkSize(n: nat, addr: nat, recordLen: nat): nat {
    var room := 65536 - addr % 65536;
    var m := if recordLen < n then recordLen else n;
    if room < m then room else m
  }

  function UpperRecord(upper: nat): Record
    requires upper < 65536
  {
    Record(EXTENDED_LINEAR_ADDRESS, 0, [upper / 256, upper % 256])
  }

  const EofRecord := Record(END_OF_FILE, 0, [])

  /** The k-th address from a on; addresses wrap around at 2^32. */
  function Wrapped(a: nat, k: nat): (r: nat)
    ensures r == (a + k) % 0x1_0000_0000
  {
    (a + k) % TWO32
  }

  /** The data records of a dump that has come to byte i, at addr. */
  function Chunks(bytes: seq<Byte>, i: nat, addr: nat, recordLen: nat): seq<Call>
    requires i <= |bytes| && addr < TWO32 && 1 <= recordLen <= 255
    decreases |bytes| - i
  {
    if i == |bytes| then []
    else
      var n := ChunkSize(|bytes| - i, addr, recordLen);
      [Call(addr, bytes[i..i + n])] + Chunks(bytes, i + n, Wrapped(addr, n), recordLen)
  }

  predicate Writable(c: Call) {
    c.addr < TWO32 && |c.bytes| <= 255
  }

  predicate AllWritable(chunks: seq<Call>) {
    forall i :: 0 <= i < |chunks| ==> Writable(chunks[i])
  }

  /** The lines for one chunk: its upper address if that changed, then its bytes. */
  function ChunkLines(c: Call, upper: nat): seq<string>
    requires Writable(c)
  {
    var data := [LineOf(Record(DATA, c.addr % 65536, c.bytes))];
    if c.addr / 65536 != upper then [LineOf(UpperRecord(c.addr / 65536))] + data else data
  }

  /** The upper half in force after writing the chunks. */
  function UpperAfter(chunks: seq<Call>): nat {
    if chunks == [] then NO_UPPER else chunks[|chunks| - 1].addr / 65536
  }

  function LinesOf(chunks: seq<Call>): seq<string>
    requires AllWritable(chunks)
  {
    if chunks == [] then []
    else
      var k := |chunks| - 1;
      LinesOf(chunks[..k]) + ChunkLines(chunks[k], UpperAfter(chunks[..k]))
  }

  lemma {:induction false} ChunksAreWritable(bytes: seq<Byte>, i: nat, addr: nat, recordLen: nat)
    requires i <= |bytes| && addr < TWO32 && 1 <= recordLen <= 255
    ensures AllWritable(Chunks(bytes, i, addr, recordLen))
    decreases |bytes| - i
  {
    if i < |bytes| {
      var n := ChunkSize(|bytes| - i, addr, recordLen);
      ChunksAreWritable(bytes, i + n, Wrapped(addr, n), recordLen);
    }
  }

  function Text(lines: seq<string>): string {
    if lines == [] then "" else Text(lines[..|lines| - 1]) + Line(lines[|lines| - 1])
  }

  /** Everything dump writes. */
  function DumpText(bytes: seq<Byte>, base: nat, recordLen: nat): string
    requires base < TWO32 && 1 <= recordLen <= 255
  {
    ChunksAreWritable(bytes, 0, base, recordLen);
    Text(LinesOf(Chunks(bytes, 0, base, recordLen)) + [LineOf(EofRecord)])
  }

  /** The records are as long as asked for, but for the last one and those that end at a 64 KiB boundary. */
  predicate Full(chunks: seq<Call>, recordLen: nat) {
    forall j :: 0 <= j < |chunks| - 1 ==>
      |chunks[j].bytes| == recordLen || (chunks[j].addr + |chunks[j].bytes|) % 65536 == 0
  }

  lemma {:induction false} ChunksAreFull(bytes: seq<Byte>, i: nat, addr: nat, recordLen: nat)
    requires i <= |bytes| && addr < TWO32 && 1 <= recordLen <= 255
    ensures Full(Chunks(bytes, i, addr, recordLen), recordLen)
    decreases |bytes| - i
  {
    if i < |bytes| {
      var n := ChunkSize(|bytes| - i, addr, recordLen);
      var rest := Chunks(bytes, i + n, Wrapped(addr, n), recordLen);
      ChunksAreFull(bytes, i + n, Wrapped(addr, n), recordLen);
      assert n == |bytes| - i ==> rest == [];
      if n < |bytes| - i && n != recordLen { BoundaryAfter(addr, n); }
      FullMore(Call(addr, bytes[i..i + n]), rest, recordLen);
    }
  }

  lemma FullMore(c: Call, rest: seq<Call>, recordLen: nat)
    requires Full(rest, recordLen)
    requires rest == [] || |c.bytes| == recordLen || (c.addr + |c.bytes|) % 65536 == 0
    ensures Full([c] + rest, recordLen)
  {
    var all := [c] + rest;
    assert forall j :: 0 < j < |all| ==> all[j] == rest[j - 1];
  }

  lemma BoundaryAfter(addr: nat, n: nat)
    requires n == 65536 - addr % 65536
    ensures (addr + n) % 65536 == 0
  {
  }

  /** A data record has an address record in front of it if and only if it is the first, or lies in another 64 KiB than
    the one before. */
  lemma AddressLines(chunks: seq<Call>, c: Call, hi: Byte, lo: Byte)
    requires AllWritable(chunks) && Writable(c) && c.addr / 65536 == 256 * hi as nat + lo as nat
    ensures AllWritable(chunks + [c])
    ensures var before, after := LinesOf(chunks), LinesOf(chunks + [c]);
      if chunks != [] && chunks[|chunks| - 1].addr / 65536 == c.addr / 65536 then
        after == before + [LineOf(Record(0, c.addr % 65536, c.bytes))]
      else
        after == before + [LineOf(Record(4, 0, [hi, lo])), LineOf(Record(0, c.addr % 65536, c.bytes))]
  {
    hide LineOf, UpperRecord, LinesOf, UpperAfter;
    LinesNext(chunks, c);
    UpperIs(c.addr / 65536, hi, lo);
    SameUpper(chunks, c.addr / 65536);
  }

  lemma SameUpper(chunks: seq<Call>, u: nat)
    requires u < 65536
    ensures UpperAfter(chunks) == u <==> chunks != [] && chunks[|chunks| - 1].addr / 65536 == u
  {
  }

  lemma UpperIs(u: nat, hi: Byte, lo: Byte)
    requires u == 256 * hi as nat + lo as nat
    ensures u < 65536 && UpperRecord(u) == Record(4, 0, [hi, lo])
  {
    assert Be16(hi, lo) == u;
  }

  /** The last line of every dump. */
  lemma LastLine(bytes: seq<Byte>, base: nat, recordLen: nat)
    requires base < TWO32 && 1 <= recordLen <= 255
    ensures var text := DumpText(bytes, base, recordLen);
      |text| >= 12 && text[|text| - 12..] == ":00000001FF\n"
  {
    hide Line, LineOf, LinesOf, Chunks;
    EofLine();
    ChunksAreWritable(bytes, 0, base, recordLen);
    var lines := LinesOf(Chunks(bytes, 0, base, recordLen));
    assert (lines + [LineOf(EofRecord)])[..|lines|] == lines;
    EndsWithLine(Text(lines), LineOf(EofRecord));
  }

  lemma EndsWithLine(front: string, h: string)
    requires h == "00000001FF"
    ensures var text := front + Line(h); |text| >= 12 && text[|text| - 12..] == ":00000001FF\n"
  {
    assert Line(h) == ":00000001FF\n";
  }

  lemma EofLine()
    ensures LineOf(EofRecord) == "00000001FF"
  {
    var payload: seq<Byte> := [0, 0, 0, 1];
    assert payload[..0] == [] && payload[..4] == payload;
    SumNext(payload, 0, 0);
    SumNext(payload, 1, 0);
    SumNext(payload, 2, 0);
    SumNext(payload, 3, 1);
    assert Payload(Record(1, 0, [])) == payload;
    var bs := Complete(Record(1, 0, []));
    assert bs == [0, 0, 0, 1, 255];
  }

  /** One turn of the dump loop writes an address record when the upper half changes, then the data record. */
  method WriteChunk(os: string, ghost done: seq<Call>, addr: nat, buf: seq<Byte>, upper: nat)
    returns (text: string, newUpper: nat)
    requires AllWritable(done) && Writable(Call(addr, buf))
    requires os == Text(LinesOf(done)) && upper == UpperAfter(done)
    ensures text == Text(LinesOf(done + [Call(addr, buf)]))
    ensures newUpper == addr / 65536
  {
    hide Text, LinesOf;
    newUpper := addr / 65536;
    text := os;
    ghost var written := LinesOf(done);
    if newUpper != upper {
      text := WriteRecord(text, written, EXTENDED_LINEAR_ADDRESS, 0, [newUpper / 256, newUpper % 256]);
      written := written + [LineOf(UpperRecord(newUpper))];
    }
    text := WriteRecord(text, written, DATA, addr % 65536, buf);
    LinesNext(done, Call(addr, buf));
    assert written + [LineOf(Record(DATA, addr % 65536, buf))] == LinesOf(done) + ChunkLines(Call(addr, buf), upper);
  }

  lemma LinesNext(done: seq<Call>, c: Call)
    requires AllWritable(done) && Writable(c)
    ensures LinesOf(done + [c]) == LinesOf(done) + ChunkLines(c, UpperAfter(done))
  {
    assert (done + [c])[..|done|] == done;
  }

  lemma NextChunk(all: seq<Call>, done: seq<Call>, bytes: seq<Byte>, i: nat, addr: nat, recordLen: nat, n: nat)
    returns (done': seq<Call>)
    requires i < |bytes| && addr < TWO32 && 1 <= recordLen <= 255 && n == ChunkSize(|bytes| - i, addr, recordLen)
    requires all == done + Chunks(bytes, i, addr, recordLen) && AllWritable(done)
    ensures done' == done + [Call(addr, bytes[i..i + n])] && AllWritable(done')
    ensures all == done' + Chunks(bytes, i + n, Wrapped(addr, n), recordLen)
  {
    done' := done + [Call(addr, bytes[i..i + n])];
    Associate(done, [Call(addr, bytes[i..i + n])], Chunks(bytes, i + n, Wrapped(addr, n), recordLen));
  }

  /** The dump loop has come to byte i, at addr, and written the records done. */
  ghost predicate DumpedTo(bytes: seq<Byte>, base: nat, recordLen: nat, os: string, upper: nat, done: seq<Call>, i: nat,
                           addr: nat)
    requires base < TWO32 && 1 <= recordLen <= 255
  {
    && i <= |bytes| && addr < TWO32 && AllWritable(done)
    && os == Text(LinesOf(done)) && upper == UpperAfter(done)
    && Chunks(bytes, 0, base, recordLen) == done + Chunks(bytes, i, addr, recordLen)
  }

  lemma DumpStarts(bytes: seq<Byte>, base: nat, recordLen: nat)
    requires base < TWO32 && 1 <= recordLen <= 255
    ensures DumpedTo(bytes, base, recordLen, "", NO_UPPER, [], 0, base)
  {
    hide Chunks;
    assert [] + Chunks(bytes, 0, base, recordLen) == Chunks(bytes, 0, base, recordLen);
  }

  lemma DumpEnds(bytes: seq<Byte>, base: nat, recordLen: nat, os: string, upper: nat, done: seq<Call>, addr: nat)
    requires base < TWO32 && 1 <= recordLen <= 255
    requires DumpedTo(bytes, base, recordLen, os, upper, done, |bytes|, addr)
    ensures done == Chunks(bytes, 0, base, recordLen) && AllWritable(done) && os == Text(LinesOf(done))
  {
    assert done + [] == done;
  }

  /** The size of the next record. */
  method NextSize(bytes: seq<Byte>, i: nat, addr: nat, recordLen: nat) returns (chunk: nat)
    requires i < |bytes| && 1 <= recordLen <= 255
    ensures chunk == ChunkSize(|bytes| - i, addr, recordLen) && 1 <= chunk <= |bytes| - i
  {
    var maxBeforeBoundary := 65536 - addr % 65536;
    chunk := recordLen;
    if chunk > |bytes| - i { chunk := |bytes| - i; }
    if chunk > maxBeforeBoundary { chunk := maxBeforeBoundary; }
  }

  lemma DumpMoves(bytes: seq<Byte>, base: nat, recordLen: nat, os: string, upper: nat, done: seq<Call>, i: nat,
                  addr: nat, n: nat, os': string)
    requires base < TWO32 && 1 <= recordLen <= 255 && i < |bytes| && n == ChunkSize(|bytes| - i, addr, recordLen)
    requires DumpedTo(bytes, base, recordLen, os, upper, done, i, addr) && i + n <= |bytes|
    requires AllWritable(done + [Call(addr, bytes[i..i + n])])
    requires os' == Text(LinesOf(done + [Call(addr, bytes[i..i + n])]))
    ensures DumpedTo(bytes, base, recordLen, os', addr / 65536, done + [Call(addr, bytes[i..i + n])], i + n,
                     Wrapped(addr, n))
  {
    hide LinesOf, Text, ChunkSize;
    var all := Chunks(bytes, 0, base, recordLen);
    var done' := NextChunk(all, done, bytes, i, addr, recordLen, n);
    assert done' == done + [Call(addr, bytes[i..i + n])];
  }

  lemma NextWritable(bytes: seq<Byte>, done: seq<Call>, i: nat, addr: nat, recordLen: nat, n: nat)
    requires AllWritable(done) && addr < TWO32 && 1 <= recordLen <= 255 && i < |bytes|
    requires n == ChunkSize(|bytes| - i, addr, recordLen) && i + n <= |bytes|
    ensures Writable(Call(addr, bytes[i..i + n])) && AllWritable(done + [Call(addr, bytes[i..i + n])])
  {
  }

  /** dump throws std::invalid_argument, here None, for a record length outside 1..255. */
  method Dump(bytes: seq<Byte>, base: nat, recordLen: nat) returns (text: Option<string>)
    requires base < TWO32
    ensures text == if 1 <= recordLen <= 255 then Some(DumpText(bytes, base, recordLen)) else None
  {
    hide Line, LineOf, Wrapped, ChunkSize, Chunks, LinesOf, Text, UpperAfter;
    if recordLen == 0 || recordLen > 255 {
      return None;
    }
    var addr: nat, upper: nat, os, i: nat := base, NO_UPPER, "", 0;
    ghost var done: seq<Call> := [];
    DumpStarts(bytes, base, recordLen);
    while i < |bytes|
      invariant i <= |bytes| && DumpedTo(bytes, base, recordLen, os, upper, done, i, addr)
    {
      var chunk := NextSize(bytes, i, addr, recordLen);
      var buf := bytes[i..i + chunk];
      NextWritable(bytes, done, i, addr, recordLen, chunk);
      ghost var was, wasUpper := os, upper;
      os, upper := WriteChunk(os, done, addr, buf, upper);
      DumpMoves(bytes, base, recordLen, was, wasUpper, done, i, addr, chunk, os);
      done := done + [Call(addr, buf)];
      i := i + chunk;
      addr := Wrapped(addr, chunk);
    }
    DumpEnds(bytes, base, recordLen, os, upper, done, addr);
    os := WriteRecord(os, LinesOf(done), END_OF_FILE, 0, []);
    return Some(os);
  }

  lemma Associate<T>(a: seq<T>, b: seq<T>, c: seq<T>)
    ensures a + (b + c) == a + b + c
  {
  }

  // ---------------------------------------------------------------------------
  // The two together

  lemma CompleteIsRecord(r: Record)
    ensures IsRecord(Complete(r))
  {
    var p, f := Payload(r), Complete(r);
    assert f[..|p|] == p && f[..|p| + 1] == f;
    SumNext(f, |p|, f[|p|]);
  }

  lemma {:induction false} FeedConcat(p: Progress, a: string, b: string, cb: Callback)
    requires p.st.Valid()
    ensures Feed(p, a + b, cb) == Feed(Feed(p, a, cb), b, cb)
    decreases |a|
  {
    if a == [] {
      assert a + b == b;
    } else if p.verdict.None? {
      assert (a + b)[1..] == a[1..] + b;
      FeedConcat(Advance(p, a[0], cb), a[1..], b, cb);
    }
  }

  ghost predicate Ready(p: Progress) {
    p.verdict.None? && p.st.Valid() && p.st.phase == START_CODE
  }

  /** Reading back one line. */
  lemma FeedLine(p: Progress, h: string, bs: seq<Byte>, cb: Callback)
    requires Ready(p) && Spells(h, bs)
    ensures var q := Feed(p, Line(h), cb); if IsRecord(bs) then Performs(p, bs, q, cb) else q.verdict == Some(false)
  {
    var r := LineVerdict(p, h, bs, [], cb);
    assert Line(h) + [] == Line(h);
  }

  ghost predicate GoodLine(h: string) {
    exists bs :: Spells(h, bs) && IsRecord(bs)
  }

  ghost predicate GoodLines(hs: seq<string>) {
    forall h :: h in hs ==> GoodLine(h)
  }

  lemma LineOfSpells(r: Record)
    ensures Spells(LineOf(r), Complete(r)) && IsRecord(Complete(r))
  {
    HexOfSpells(Complete(r));
    CompleteIsRecord(r);
  }

  lemma LineOfIsGood(r: Record)
    ensures GoodLine(LineOf(r))
  {
    LineOfSpells(r);
  }

  lemma ChunkLinesAreGood(c: Call, upper: nat)
    requires Writable(c)
    ensures GoodLines(ChunkLines(c, upper))
  {
    hide LineOf, UpperRecord;
    LineOfIsGood(UpperRecord(c.addr / 65536));
    LineOfIsGood(Record(DATA, c.addr % 65536, c.bytes));
  }

  lemma {:induction false} LinesOfAreGood(chunks: seq<Call>)
    requires AllWritable(chunks)
    ensures GoodLines(LinesOf(chunks))
  {
    if chunks != [] {
      var k := |chunks| - 1;
      LinesOfAreGood(chunks[..k]);
      ChunkLinesAreGood(chunks[k], UpperAfter(chunks[..k]));
    }
  }

  /** Parsing good lines takes them one by one. */
  lemma {:induction false} FeedText(p: Progress, hs: seq<string>, cb: Callback)
    requires Ready(p) && GoodLines(hs)
    ensures var q := Feed(p, Text(hs), cb); Ready(q) || q.verdict == Some(false)
    decreases |hs|
  {
    if hs != [] {
      var k := |hs| - 1;
      FeedText(p, hs[..k], cb);
      FeedConcat(p, Text(hs[..k]), Line(hs[k]), cb);
      var q := Feed(p, Text(hs[..k]), cb);
      if Ready(q) {
        assert GoodLine(hs[k]);
        var bs :| Spells(hs[k], bs) && IsRecord(bs);
        FeedLine(q, hs[k], bs, cb);
      }
    }
  }

  // --- error detection

  lemma {:induction false} SumUpdate(bs: seq<Byte>, j: nat, b: Byte)
    requires j < |bs|
    ensures Sum(bs[j := b]) == Sum(bs) - bs[j] + b as int
    decreases |bs|
  {
    var k := |bs| - 1;
    assert bs[j := b][..k] == if j == k then bs[..k] else bs[..k][j := b];
    if j < k { SumUpdate(bs[..k], j, b); }
  }

  lemma ModDiffers(t: nat, a: Byte, b: Byte, t': nat)
    requires t' == t - a + b as int && a != b
    ensures t' % 256 != t % 256
  {
    assert t' - t == b as int - a as int;
  }

  lemma SpellsUpdate(h: string, bs: seq<Byte>, i: nat, c: char, b: Byte)
    requires Spells(h, bs) && i < |h| && IsHexDigit(c)
    requires b == if i % 2 == 0 then 16 * HexValue(c) + HexValue(h[i + 1]) else 16 * HexValue(h[i - 1]) + HexValue(c)
    ensures Spells(h[i := c], bs[i / 2 := b])
  {
    var h', bs' := h[i := c], bs[i / 2 := b];
    forall k | 0 <= k < |bs| ensures bs'[k] == 16 * HexValue(h'[2 * k]) + HexValue(h'[2 * k + 1]) {
      assert bs[k] == 16 * HexValue(h[2 * k]) + HexValue(h[2 * k + 1]);
      if k != i / 2 { assert 2 * k != i && 2 * k + 1 != i; }
    }
  }

  lemma DigitChangesByte(h: string, bs: seq<Byte>, i: nat, c: char) returns (j: nat, b: Byte)
    requires Spells(h, bs) && i < |h| && IsHexDigit(c) && HexValue(c) != HexValue(h[i])
    ensures j == i / 2 < |bs| && b != bs[j]
    ensures b == if i % 2 == 0 then 16 * HexValue(c) + HexValue(h[i + 1]) else 16 * HexValue(h[i - 1]) + HexValue(c)
  {
    j := i / 2;
    assert bs[j] == 16 * HexValue(h[2 * j]) + HexValue(h[2 * j + 1]);
    b := if i % 2 == 0 then 16 * HexValue(c) + HexValue(h[i + 1]) else 16 * HexValue(h[i - 1]) + HexValue(c);
  }

  /** Changing the value of one digit changes the sum of the record modulo 256. */
  lemma DigitChangesSum(h: string, bs: seq<Byte>, i: nat, c: char) returns (bs': seq<Byte>)
    requires Spells(h, bs) && i < |h| && IsHexDigit(c) && HexValue(c) != HexValue(h[i])
    ensures Spells(h[i := c], bs') && Sum(bs') % 256 != Sum(bs) % 256
  {
    hide HexValue, IsHexDigit;
    var j, b := DigitChangesByte(h, bs, i, c);
    bs' := bs[j := b];
    SpellsUpdate(h, bs, i, c, b);
    SumUpdate(bs, j, b);
    ModDiffers(Sum(bs), bs[j], b, Sum(bs'));
  }

  lemma BadLine(p: Progress, h: string, i: nat, c: char, cb: Callback)
    requires Ready(p) && GoodLine(h)
    requires i < |h| && IsHexDigit(c) && HexValue(c) != HexValue(h[i])
    ensures Feed(p, Line(h[i := c]), cb).verdict == Some(false)
  {
    var bs :| Spells(h, bs) && IsRecord(bs);
    var bs' := DigitChangesSum(h, bs, i, c);
    FeedLine(p, h[i := c], bs', cb);
  }

  /** Replacing one hex digit anywhere in the text by a digit of another value makes the parser return false. */
  lemma {:induction false} ErrorDetected(p: Progress, hs: seq<string>, pos: nat, c: char, cb: Callback)
    requires Ready(p) && GoodLines(hs)
    requires pos < |Text(hs)| && IsHexDigit(Text(hs)[pos]) && IsHexDigit(c) && HexValue(c) != HexValue(Text(hs)[pos])
    ensures Feed(p, Text(hs)[pos := c], cb).verdict == Some(false)
    decreases |hs|
  {
    var k := |hs| - 1;
    var h, before := hs[k], Text(hs[..k]);
    if pos < |before| {
      assert Text(hs)[pos := c] == before[pos := c] + Line(h);
      ErrorDetected(p, hs[..k], pos, c, cb);
      FeedConcat(p, before[pos := c], Line(h), cb);
    } else {
      var i := pos - |before|;
      assert Line(h)[i] == Text(hs)[pos];
      assert 1 <= i <= |h| && Line(h)[i] == h[i - 1];
      assert Text(hs)[pos := c] == before + Line(h[i - 1 := c]);
      FeedConcat(p, before, Line(h[i - 1 := c]), cb);
      FeedText(p, hs[..k], cb);
      if Ready(Feed(p, before, cb)) {
        assert GoodLine(h);
        BadLine(Feed(p, before, cb), h, i - 1, c, cb);
      }
    }
  }

  /** What a letter of value v in place of the digit at i makes of its byte. */
  function LetterByte(h: string, i: nat, v: nat): Byte
    requires |h| % 2 == 0 && i < |h| && v < 64 && forall k :: 0 <= k < |h| ==> IsDigit(h[k])
  {
    var other := h[if i % 2 == 0 then i + 1 else i - 1];
    assert IsDigit(other);
    (if i % 2 == 0 then Append(v, HexValue(other)) else Append(HexValue(other), v)) % 256
  }

  lemma LetterAsHigh(v: nat, b: nat, was: nat)
    requires 16 <= v < 36 && b < 16 && was < 16
    ensures Append(v, b) % 256 == 16 * was + b <==> v % 16 == was
  {
    assert Append(v, b) % 256 == 16 * (v % 16) + b;
  }

  lemma LetterAsLow(a: nat, v: nat, was: nat)
    requires a < 16 && 16 <= v < 36 && was < 16
    ensures Append(a, v) % 256 == 16 * a + was <==> v % 16 == was && OrTwoBits(a, v / 16) == a
  {
    OrInSecond(0, a, v / 16);
    assert Append(a, v) % 256 == 16 * OrTwoBits(a, v / 16) + v % 16;
  }

  /** It is the byte that was there exactly if the letter is the old digit but for the bits that it shifts out, and
    these are shifted out of the byte, or are set in the digit before. */
  lemma LetterKeepsByte(h: string, bs: seq<Byte>, i: nat, c: char)
    requires Spells(h, bs) && i < |h| && 16 <= HexValue(c) < 36
    ensures LetterByte(h, i, HexValue(c)) == bs[i / 2] <==>
      && HexValue(c) % 16 == HexValue(h[i])
      && (i % 2 == 1 ==> OrTwoBits(HexValue(h[i - 1]), HexValue(c) / 16) == HexValue(h[i - 1]))
  {
    hide Append, OrTwoBits, HexValue;
    var j := i / 2;
    assert bs[j] == 16 * HexValue(h[2 * j]) + HexValue(h[2 * j + 1]) && IsHexDigit(h[2 * j])
        && IsHexDigit(h[2 * j + 1]);
    HexDigitValue(h[2 * j]);
    HexDigitValue(h[2 * j + 1]);
    if i % 2 == 0 {
      LetterAsHigh(HexValue(c), HexValue(h[i + 1]), HexValue(h[i]));
    } else {
      LetterAsLow(HexValue(h[i - 1]), HexValue(c), HexValue(h[i]));
    }
  }

  lemma HexDigitValue(c: char)
    requires IsHexDigit(c)
    ensures HexValue(c) < 16
  {
  }

  lemma ReadsLetter(h: string, bs: seq<Byte>, i: nat, c: char)
    requires Spells(h, bs) && i < |h| && IsDigit(c)
    ensures Reads(h[i := c], bs[i / 2 := LetterByte(h, i, HexValue(c))])
  {
    hide Append, HexValue;
    SpellsReads(h, bs);
    var h', bs' := h[i := c], bs[i / 2 := LetterByte(h, i, HexValue(c))];
    forall k | 0 <= k < |bs| ensures bs'[k] == Append(HexValue(h'[2 * k]), HexValue(h'[2 * k + 1])) % 256 {
      assert bs[k] == Append(HexValue(h[2 * k]), HexValue(h[2 * k + 1])) % 256;
      if k != i / 2 { assert 2 * k != i && 2 * k + 1 != i; }
    }
  }

  /** A letter beyond f in place of one digit of a good line goes unnoticed exactly if it is not in the record type and
    its byte reads as before.  The record is then performed, at the address that LetterMoves tells. */
  lemma LetterUnnoticed(p: Progress, h: string, bs: seq<Byte>, i: nat, c: char, s: string, cb: Callback)
    returns (r: Progress)
    requires Ready(p) && Spells(h, bs) && IsRecord(bs) && i < |h| && 16 <= HexValue(c) < 36
    ensures var unnoticed := i != 6 && i != 7 && LetterByte(h, i, HexValue(c)) == bs[i / 2];
      && (!unnoticed ==> Feed(p, Line(h[i := c]) + s, cb).verdict == Some(false))
      && (unnoticed ==>
          && Reads(h[i := c], bs) && PerformsAt(p, bs, LoAt(h[i := c], 3), r, cb)
          && Feed(p, Line(h[i := c]) + s, cb) == Feed(r, s, cb))
  {
    hide Feed, Append, LoAt;
    var b := LetterByte(h, i, HexValue(c));
    ReadsLetter(h, bs, i, c);
    SpellsKind(h, bs);
    r := DigitsVerdict(p, h[i := c], bs[i / 2 := b], s, cb);
    if b != bs[i / 2] {
      SumUpdate(bs, i / 2, b);
      ModDiffers(Sum(bs), bs[i / 2], b, Sum(bs[i / 2 := b]));
    } else {
      assert bs[i / 2 := b] == bs;
    }
  }

  /** With a callback that accepts everything: parse does not return false. */
  lemma LetterVerdict(p: Progress, h: string, bs: seq<Byte>, i: nat, c: char, cb: Callback)
    requires Ready(p) && Spells(h, bs) && IsRecord(bs) && i < |h| && 16 <= HexValue(c) < 36 && forall call :: cb(call)
    ensures Feed(p, Line(h[i := c]), cb).verdict != Some(false) <==>
      i != 6 && i != 7 && LetterByte(h, i, HexValue(c)) == bs[i / 2]
  {
    hide LetterByte, Reads;
    var r := LetterUnnoticed(p, h, bs, i, c, [], cb);
    assert Line(h[i := c]) + [] == Line(h[i := c]);
  }

  /** The address moves only for a letter in its third digit, and then exactly if that sets bits of the second. */
  lemma LetterMoves(h: string, bs: seq<Byte>, i: nat, c: char)
    requires Spells(h, bs) && |bs| >= 3 && i < |h| && 16 <= HexValue(c) < 36
    requires LetterByte(h, i, HexValue(c)) == bs[i / 2]
    ensures Reads(h[i := c], bs)
    ensures LoAt(h[i := c], 3) ==
      if i == 4 then Be16(bs[1], bs[2]) - 256 * HexValue(h[3]) + 256 * OrTwoBits(HexValue(h[3]), HexValue(c) / 16)
      else Be16(bs[1], bs[2])
  {
    hide Append, OrTwoBits, HexValue, AddDigits, LetterByte;
    ReadsLetter(h, bs, i, c);
    assert bs[i / 2 := bs[i / 2]] == bs;
    SpellsAddress(h, bs);
    LetterKeepsByte(h, bs, i, c);
    assert bs[1] == 16 * HexValue(h[2 * 1]) + HexValue(h[2 * 1 + 1]);
    assert bs[2] == 16 * HexValue(h[2 * 2]) + HexValue(h[2 * 2 + 1]);
    var v, a, b, d, e := HexValue(c), HexValue(h[2]), HexValue(h[3]), HexValue(h[4]), HexValue(h[5]);
    HexDigitValue(h[2]);
    HexDigitValue(h[3]);
    HexDigitValue(h[4]);
    HexDigitValue(h[5]);
    assert Be16(bs[1], bs[2]) == 4096 * a + 256 * b + 16 * d + e;
    if i == 2 {
      LetterFirst(v, b, d, e);
    } else if i == 3 {
      LetterSecond(a, v, d, e);
    } else if i == 4 {
      LetterThird(a, b, v, e);
    } else if i == 5 {
      LetterFourth(a, b, d, v);
    }
  }

  /** Four address digits. */
  function Shifted(a: nat, b: nat, c: nat, d: nat): nat
    requires a < 64 && b < 64 && c < 64 && d < 64
  {
    AddDigits(AddDigits(0, a, b), c, d)
  }

  lemma AppendDigit(x: nat, d: nat)
    requires d < 16
    ensures Append(x, d) == 16 * x + d
  {
  }

  lemma AppendLetter(x: nat, v: nat)
    requires 16 <= v < 64
    ensures Append(x, v) == 16 * OrTwoBits(x, v / 16) + v % 16
  {
  }

  lemma LetterFirst(v: nat, b: nat, c: nat, d: nat)
    requires 16 <= v < 36 && b < 16 && c < 16 && d < 16
    ensures Shifted(v, b, c, d) == 4096 * (v % 16) + 256 * b + 16 * c + d
  {
    hide Append;
    FirstDigit(v);
    AppendDigit(v, b);
    AppendDigit(16 * v + b, c);
    AppendDigit(256 * v + 16 * b + c, d);
  }

  lemma LetterSecond(a: nat, v: nat, c: nat, d: nat)
    requires a < 16 && 16 <= v < 36 && c < 16 && d < 16 && OrTwoBits(a, v / 16) == a
    ensures Shifted(a, v, c, d) == 4096 * a + 256 * (v % 16) + 16 * c + d
  {
    hide Append, OrTwoBits;
    FirstDigit(a);
    AppendLetter(a, v);
    AddressDigits(16 * a + v % 16, c, d);
  }

  lemma OrInSecond(a: nat, b: nat, m: nat)
    requires b < 16 && m < 4
    ensures OrTwoBits(16 * a + b, m) == 16 * a + OrTwoBits(b, m) && OrTwoBits(b, m) < 16
  {
    HalfOf(8 * a, b);
    HalfOf(4 * a, b / 2);
    assert (16 * a + b) / 2 == 8 * a + b / 2;
  }

  lemma HalfOf(a: nat, b: nat)
    ensures (2 * a + b) % 2 == b % 2 && (2 * a + b) / 2 == a + b / 2
  {
  }

  lemma LetterThird(a: nat, b: nat, v: nat, d: nat)
    requires a < 16 && b < 16 && 16 <= v < 36 && d < 16
    ensures Shifted(a, b, v, d) == 4096 * a + 256 * OrTwoBits(b, v / 16) + 16 * (v % 16) + d
  {
    hide Append, OrTwoBits;
    AddressDigits(0, a, b);
    OrInSecond(a, b, v / 16);
    AppendLetter(16 * a + b, v);
    AppendDigit(16 * (16 * a + OrTwoBits(b, v / 16)) + v % 16, d);
  }

  lemma LetterFourth(a: nat, b: nat, c: nat, v: nat)
    requires a < 16 && b < 16 && c < 16 && 16 <= v < 36 && OrTwoBits(c, v / 16) == c
    ensures Shifted(a, b, c, v) == 4096 * a + 256 * b + 16 * c + v % 16
  {
    hide Append, OrTwoBits;
    AddressDigits(0, a, b);
    AppendDigit(16 * a + b, c);
    OrInSecond(16 * a + b, c, v / 16);
    AppendLetter(16 * (16 * a + b) + c, v);
  }

  /** Data written for address zero, with a g for the third digit of that: it is read back without complaint, and called
    back at 0x100. */
  lemma WrongAddress(p: Progress, data: seq<Byte>, cb: Callback)
    requires Ready(p) && p.st.hi == 0 && !p.st.segment && |data| <= 255 && forall call :: cb(call)
    ensures var q := Feed(p, Line(LineOf(Record(DATA, 0, data))[4 := 'g']), cb);
      q.verdict.None? && q.calls == p.calls + [Call(0x100, data)]
  {
    hide Feed, LoAt, LetterByte, Append, HexValue, LineOf, Complete, Reads, Line, Be16;
    var r := Record(DATA, 0, data);
    var h, bs := LineOf(r), Complete(r);
    LineOfSpells(r);
    CompleteFields(r);
    ZeroBytes(bs[1], bs[2]);
    ZeroAddress(h, bs);
    var q := LetterUnnoticed(p, h, bs, 4, 'g', [], cb);
    assert Line(h[4 := 'g']) + [] == Line(h[4 := 'g']);
    NothingLeft(q, cb);
  }

  lemma ZeroBytes(hi: Byte, lo: Byte)
    ensures Be16(hi, lo) == 0 <==> hi == 0 && lo == 0
  {
  }

  lemma LetterG()
    ensures HexValue('g') == 16 && OrTwoBits(0, 1) == 1
  {
  }

  lemma ZeroDigits(h: string, bs: seq<Byte>)
    requires Spells(h, bs) && |bs| >= 3 && bs[1] == 0 && bs[2] == 0
    ensures HexValue(h[3]) == 0 && HexValue(h[4]) == 0
  {
    hide HexValue;
    assert bs[1] == 16 * HexValue(h[2 * 1]) + HexValue(h[2 * 1 + 1]);
    assert bs[2] == 16 * HexValue(h[2 * 2]) + HexValue(h[2 * 2 + 1]);
  }

  lemma ZeroAddress(h: string, bs: seq<Byte>)
    requires Spells(h, bs) && |bs| >= 5 && bs[1] == 0 && bs[2] == 0
    ensures HexValue('g') == 16 && LetterByte(h, 4, HexValue('g')) == bs[2]
    ensures Reads(h[4 := 'g'], bs) && LoAt(h[4 := 'g'], 3) == 0x100
  {
    hide LoAt, LetterByte, Append, Reads, HexValue, OrTwoBits, Be16;
    LetterG();
    ZeroBytes(0, 0);
    ZeroDigits(h, bs);
    LetterKeepsByte(h, bs, 4, 'g');
    LetterMoves(h, bs, 4, 'g');
  }

  lemma NothingLeft(p: Progress, cb: Callback)
    requires p.st.Valid()
    ensures Feed(p, [], cb) == p
  {
  }

  // --- the end of the file

  /** A good line up to its check sum, whatever follows. */
  lemma BareLine(p: Progress, h: string, bs: seq<Byte>, t: string, cb: Callback) returns (q: Progress)
    requires Ready(p) && Spells(h, bs) && IsRecord(bs)
    ensures Performs(p, bs, q, cb) && Feed(p, [':'] + h + t, cb) == Feed(q, t, cb)
  {
    hide Append, AddDigits, HexValue, Feed;
    SpellsKind(h, bs);
    SpellsAddress(h, bs);
    var m, q0 := |bs| - 1, p.(st := Mid(p.st, bs, 0, 0, p.st.high));
    assert [':'] + h + t == [':'] + (h + t);
    FeedOne(p, ':', h + t, cb);
    assert Advance(p, ':', cb) == q0 && h[2 * 0..] == h && LoAt(h, 0) == 0;
    var q1 := FeedBytes(q0, p.st, h, bs, 0, m, t, cb);
    PeelByte(h, m, t);
    assert IsDigit(h[2 * m]) && IsDigit(h[2 * m + 1]) && h[2 * (m + 1)..] + t == t && bs[..m + 1] == bs;
    q := FeedChecksum(p, q1, bs, m, LoAt(h, 3), h[2 * m], h[2 * m + 1], t, cb);
  }

  /** A check-sum digit seen again after a good line is an error. */
  lemma SeenTwice(p: Progress, h: string, bs: seq<Byte>, cb: Callback)
    requires Ready(p) && Spells(h, bs) && IsRecord(bs) && |bs| >= 5
    ensures Feed(p, [':'] + h + [h[|h| - 1]], cb).verdict == Some(false)
  {
    hide Feed, IsRecord, HexValue, Performs;
    var c := h[|h| - 1];
    LastIsDigit(h, bs);
    var q := BareLine(p, h, bs, [c], cb);
    AfterGoodLine(p, bs, q, cb);
    assert [c] == [c] + [];
    BadNext(q, c, [], cb);
  }

  lemma AfterGoodLine(p: Progress, bs: seq<Byte>, q: Progress, cb: Callback)
    requires IsRecord(bs) && Performs(p, bs, q, cb)
    ensures q.st.Valid() && (q.verdict == Some(false) || Ready(q))
  {
  }

  lemma WithoutNewline(front: string, h: string, stale: char)
    requires h != []
    ensures var text := front + Line(h);
      text != [] && Stream(text[..|text| - 1], stale) == front + ([':'] + h + [h[|h| - 1]])
  {
    var text := front + Line(h);
    assert text[..|text| - 1] == front + ([':'] + h);
  }

  /** Without its last newline a text of good lines is refused: the failed read at the end leaves the last digit of the
    check sum in place, and between records that is an error. */
  lemma NoFinalNewline(p: Progress, hs: seq<string>, stale: char, cb: Callback)
    requires Ready(p) && GoodLines(hs) && hs != []
    ensures Text(hs) != [] && Feed(p, Stream(Text(hs)[..|Text(hs)| - 1], stale), cb).verdict == Some(false)
  {
    hide Feed, IsRecord, HexValue, Line, Stream, Spells;
    var k := |hs| - 1;
    var h, front := hs[k], Text(hs[..k]);
    assert GoodLine(h);
    var bs :| Spells(h, bs) && IsRecord(bs);
    RecordLength(bs);
    LastIsDigit(h, bs);
    var last := [':'] + h + [h[|h| - 1]];
    WithoutNewline(front, h, stale);
    assert Text(hs) == front + Line(h);
    FeedText(p, hs[..k], cb);
    FeedConcat(p, front, last, cb);
    var q := Feed(p, front, cb);
    if Ready(q) {
      SeenTwice(q, h, bs, cb);
    } else {
      Refused(q, last, cb);
    }
  }

  lemma RecordLength(bs: seq<Byte>)
    requires IsRecord(bs)
    ensures |bs| >= 5
  {
  }

  lemma LastIsDigit(h: string, bs: seq<Byte>)
    requires Spells(h, bs) && |bs| >= 5
    ensures |h| >= 10 && IsDigit(h[|h| - 1])
  {
    assert IsHexDigit(h[|h| - 1]);
  }

  /** Single-digit errors in the output of dump, wherever they are, are detected. */
  lemma DumpErrorDetected(bytes: seq<Byte>, base: nat, recordLen: nat, pos: nat, c: char, stale: char, cb: Callback)
    requires base < TWO32 && 1 <= recordLen <= 255
    requires var text := DumpText(bytes, base, recordLen);
      pos < |text| && IsHexDigit(text[pos]) && IsHexDigit(c) && HexValue(c) != HexValue(text[pos])
    ensures var text := DumpText(bytes, base, recordLen);
      Feed(Progress(Initial, None, []), Stream(text[pos := c], stale), cb).verdict == Some(false)
  {
    hide Feed, LineOf;
    var p, chunks := Progress(Initial, None, []), Chunks(bytes, 0, base, recordLen);
    ChunksAreWritable(bytes, 0, base, recordLen);
    LinesOfAreGood(chunks);
    LineOfIsGood(EofRecord);
    var lines := LinesOf(chunks) + [LineOf(EofRecord)];
    var changed := Text(lines)[pos := c];
    ErrorDetected(p, lines, pos, c, cb);
    FeedConcat(p, changed, [changed[|changed| - 1]], cb);
    Refused(Feed(p, changed, cb), [changed[|changed| - 1]], cb);
  }

  // --- round trip

  lemma {:induction false} TextConcat(a: seq<string>, b: seq<string>)
    ensures Text(a + b) == Text(a) + Text(b)
    decreases |b|
  {
    hide Line;
    if b == [] {
      assert a + b == a;
    } else {
      var front, last := b[..|b| - 1], b[|b| - 1];
      assert (a + b)[..|a + b| - 1] == a + front && (a + b)[|a + b| - 1] == last;
      TextConcat(a, front);
      Associate(Text(a), Text(front), Line(last));
    }
  }

  lemma CompleteFields(r: Record)
    ensures var bs := Complete(r);
      |bs| == |r.data| + 5 && bs[3] == r.kind && Be16(bs[1], bs[2]) == r.addr && bs[4..|bs| - 1] == r.data
  {
  }

  /** Reading back one written record. */
  lemma FeedRecord(p: Progress, r: Record, cb: Callback)
    requires Ready(p)
    ensures IsRecord(Complete(r)) && Performs(p, Complete(r), Feed(p, Text([LineOf(r)]), cb), cb)
  {
    LineOfSpells(r);
    assert [LineOf(r)][..0] == [];
    assert Text([LineOf(r)]) == Line(LineOf(r));
    FeedLine(p, LineOf(r), Complete(r), cb);
  }

  lemma FeedUpperRecord(p: Progress, u: nat, cb: Callback)
    requires Ready(p) && u < 65536
    ensures var q := Feed(p, Text([LineOf(UpperRecord(u))]), cb);
      Ready(q) && q.calls == p.calls && q.st.hi == u && !q.st.segment
  {
    FeedRecord(p, UpperRecord(u), cb);
    CompleteFields(UpperRecord(u));
    var d := DataOf(Complete(UpperRecord(u)));
    assert d[0] == u / 256 && d[1] == u % 256;
  }

  lemma FeedDataRecord(p: Progress, addr: nat, chunk: seq<Byte>, cb: Callback)
    requires Ready(p) && addr < TWO32 && p.st.hi == addr / 65536 && !p.st.segment && |chunk| <= 255
    requires cb(Call(addr, chunk))
    ensures var q := Feed(p, Text([LineOf(Record(DATA, addr % 65536, chunk))]), cb);
      Ready(q) && q.calls == p.calls + [Call(addr, chunk)] && q.st.hi == p.st.hi && !q.st.segment
  {
    var r: Record := Record(DATA, addr % 65536, chunk);
    CompleteFields(r);
    FeedRecord(p, r, cb);
    assert CallOf(p.st, Complete(r), r.addr) == Call(addr, chunk);
  }

  lemma FeedEofRecord(p: Progress, cb: Callback)
    requires Ready(p)
    ensures var q := Feed(p, Text([LineOf(EofRecord)]), cb); Ready(q) && q.calls == p.calls
  {
    CompleteFields(EofRecord);
    FeedRecord(p, EofRecord, cb);
  }

  /** Whether the reader's base is the writer's. */
  predicate InStep(st: State, upper: nat) {
    upper == NO_UPPER || (st.hi == upper && !st.segment)
  }

  lemma FeedChunk(p: Progress, c: Call, upper: nat, cb: Callback)
    requires Ready(p) && InStep(p.st, upper) && Writable(c) && cb(c)
    ensures var q := Feed(p, Text(ChunkLines(c, upper)), cb);
      Ready(q) && InStep(q.st, c.addr / 65536) && q.calls == p.calls + [c]
  {
    var u, d := c.addr / 65536, [LineOf(Record(DATA, c.addr % 65536, c.bytes))];
    if u != upper {
      var a := [LineOf(UpperRecord(u))];
      TextConcat(a, d);
      FeedConcat(p, Text(a), Text(d), cb);
      FeedUpperRecord(p, u, cb);
      FeedDataRecord(Feed(p, Text(a), cb), c.addr, c.bytes, cb);
    } else {
      FeedDataRecord(p, c.addr, c.bytes, cb);
    }
  }

  /** Whatever chunks are written, reading them back calls back with exactly those chunks. */
  lemma {:induction false} FeedChunks(p: Progress, chunks: seq<Call>, cb: Callback)
    requires Ready(p) && AllWritable(chunks) && forall c :: cb(c)
    ensures var q := Feed(p, Text(LinesOf(chunks)), cb);
      Ready(q) && InStep(q.st, UpperAfter(chunks)) && q.calls == p.calls + chunks
  {
    hide Feed, Text, LinesOf, ChunkLines, UpperAfter;
    if chunks == [] {
      FeedNoChunks(p, chunks, cb);
    } else {
      var k := |chunks| - 1;
      var before, c := chunks[..k], chunks[k];
      var t1, t2 := Text(LinesOf(before)), Text(ChunkLines(c, UpperAfter(before)));
      LastChunk(chunks);
      TextConcat(LinesOf(before), ChunkLines(c, UpperAfter(before)));
      FeedChunks(p, before, cb);
      FeedNextChunk(p, Feed(p, t1, cb), t1, t2, UpperAfter(before), c, cb);
      assert p.calls + before + [c] == p.calls + chunks;
    }
  }

  lemma FeedNoChunks(p: Progress, chunks: seq<Call>, cb: Callback)
    requires chunks == [] && Ready(p)
    ensures Feed(p, Text(LinesOf(chunks)), cb) == p && InStep(p.st, UpperAfter(chunks))
  {
  }

  lemma LastChunk(chunks: seq<Call>)
    requires chunks != [] && AllWritable(chunks)
    ensures var k := |chunks| - 1;
      && LinesOf(chunks) == LinesOf(chunks[..k]) + ChunkLines(chunks[k], UpperAfter(chunks[..k]))
      && UpperAfter(chunks) == chunks[k].addr / 65536
  {
  }

  lemma FeedNextChunk(p: Progress, q: Progress, t1: string, t2: string, upper: nat, c: Call, cb: Callback)
    requires p.st.Valid() && q == Feed(p, t1, cb) && Ready(q) && InStep(q.st, upper)
    requires Writable(c) && cb(c) && t2 == Text(ChunkLines(c, upper))
    ensures var r := Feed(p, t1 + t2, cb); Ready(r) && InStep(r.st, c.addr / 65536) && r.calls == q.calls + [c]
  {
    FeedConcat(p, t1, t2, cb);
    FeedChunk(q, c, upper, cb);
  }

  datatype Cell = Cell(addr: nat, byte: Byte)

  function Place(c: Call): (cells: seq<Cell>)
    ensures |cells| == |c.bytes| && forall k :: 0 <= k < |cells| ==> cells[k] == Cell(c.addr + k, c.bytes[k])
  {
    seq(|c.bytes|, k requires 0 <= k < |c.bytes| => Cell(c.addr + k, c.bytes[k]))
  }

  /** The memory image that the callbacks describe, in order. */
  function Image(calls: seq<Call>): seq<Cell> {
    if calls == [] then [] else Place(calls[0]) + Image(calls[1..])
  }

  lemma WrapAdd(base: nat, i: nat, n: nat)
    ensures Wrapped(Wrapped(base, i), n) == Wrapped(base, i + n)
    ensures Wrapped(base, i) + n < TWO32 ==> Wrapped(base, i) + n == Wrapped(base, i + n)
  {
  }

  /** A record that stays in its block does not wrap around. */
  lemma InBlock(base: nat, i: nat, k: nat, n: nat)
    requires Wrapped(base, i) % 65536 + n <= 65536 && k < n
    ensures Wrapped(base, i) + k == Wrapped(base, i + k)
  {
    WrapAdd(base, i, k);
  }

  /** The calls describe bytes[i..] from address (base + i) on, in records that are short enough and stay in their
    block. */
  ghost predicate Describes(calls: seq<Call>, bytes: seq<Byte>, base: nat, i: nat, recordLen: nat)
    requires i <= |bytes|
  {
    && |Image(calls)| == |bytes| - i
    && (forall k :: i <= k < |bytes| ==> Image(calls)[k - i] == Cell(Wrapped(base, k), bytes[k]))
    && (forall c :: c in calls ==> 1 <= |c.bytes| <= recordLen && c.addr % 65536 + |c.bytes| <= 65536)
  }

  lemma DescribesMore(c: Call, rest: seq<Call>, bytes: seq<Byte>, base: nat, i: nat, n: nat, recordLen: nat)
    requires i + n <= |bytes| && Describes(rest, bytes, base, i + n, recordLen)
    requires c.addr == Wrapped(base, i) && c.bytes == bytes[i..i + n] && 1 <= n <= recordLen
    requires c.addr % 65536 + n <= 65536
    ensures Describes([c] + rest, bytes, base, i, recordLen)
  {
    hide Wrapped;
    assert ([c] + rest)[1..] == rest;
    forall k | i <= k < |bytes| ensures Image([c] + rest)[k - i] == Cell(Wrapped(base, k), bytes[k]) {
      if k < i + n {
        InBlock(base, i, k - i, n);
      } else {
        assert Image([c] + rest)[k - i] == Image(rest)[k - (i + n)];
      }
    }
  }

  lemma DescribesNone(bytes: seq<Byte>, base: nat, recordLen: nat)
    ensures Describes([], bytes, base, |bytes|, recordLen)
  {
  }

  lemma ChunkSizeFits(n: nat, addr: nat, recordLen: nat)
    requires 1 <= n && 1 <= recordLen <= 255
    ensures 1 <= ChunkSize(n, addr, recordLen) <= n && ChunkSize(n, addr, recordLen) <= recordLen
    ensures addr % 65536 + ChunkSize(n, addr, recordLen) <= 65536
  {
  }

  lemma {:induction false} ChunksDescribe(bytes: seq<Byte>, base: nat, i: nat, recordLen: nat)
    requires i <= |bytes| && 1 <= recordLen <= 255
    ensures Describes(Chunks(bytes, i, Wrapped(base, i), recordLen), bytes, base, i, recordLen)
    decreases |bytes| - i
  {
    hide ChunkSize, Describes, Wrapped;
    if i == |bytes| {
      DescribesNone(bytes, base, recordLen);
    } else {
      var addr := Wrapped(base, i);
      var n := ChunkSize(|bytes| - i, addr, recordLen);
      ChunkSizeFits(|bytes| - i, addr, recordLen);
      WrapAdd(base, i, n);
      ChunksDescribe(bytes, base, i + n, recordLen);
      var rest := Chunks(bytes, i + n, Wrapped(addr, n), recordLen);
      DescribesMore(Call(addr, bytes[i..i + n]), rest, bytes, base, i, n, recordLen);
    }
  }

  /** Parsing what dump wrote succeeds and yields exactly the dumped bytes at their addresses modulo 2^32, and no
    data record is longer than asked or crosses a 64 KiB boundary. */
  lemma RoundTrip(p: Progress, bytes: seq<Byte>, base: nat, recordLen: nat, stale: char, cb: Callback)
    requires p == Progress(Initial, None, [])
    requires base < TWO32 && 1 <= recordLen <= 255 && forall call :: cb(call)
    ensures var q := Feed(p, Stream(DumpText(bytes, base, recordLen), stale), cb);
      && q.verdict != Some(false) && Describes(q.calls, bytes, base, 0, recordLen)
      && Full(q.calls, recordLen)
  {
    hide Describes, Full, Feed;
    var chunks, text := Chunks(bytes, 0, base, recordLen), DumpText(bytes, base, recordLen);
    assert Describes(chunks, bytes, base, 0, recordLen) by {
      assert base == Wrapped(base, 0);
      ChunksDescribe(bytes, base, 0, recordLen);
    }
    ChunksAreWritable(bytes, 0, base, recordLen);
    ChunksAreFull(bytes, 0, base, recordLen);
    assert text == Text(LinesOf(chunks) + [LineOf(EofRecord)]);
    FeedFile(p, chunks, text, stale, cb);
  }

  lemma FeedFile(p: Progress, chunks: seq<Call>, text: string, stale: char, cb: Callback)
    requires Ready(p) && p.calls == [] && AllWritable(chunks) && forall c :: cb(c)
    requires text == Text(LinesOf(chunks) + [LineOf(EofRecord)])
    ensures var q := Feed(p, Stream(text, stale), cb); q.verdict.None? && q.calls == chunks
  {
    var t1, t2 := Text(LinesOf(chunks)), Text([LineOf(EofRecord)]);
    FeedChunks(p, chunks, cb);
    TextConcat(LinesOf(chunks), [LineOf(EofRecord)]);
    FeedConcat(p, t1, t2, cb);
    FeedEofRecord(Feed(p, t1, cb), cb);
    assert [LineOf(EofRecord)][..0] == [];
    assert Stream(text, stale) == text + ['\n'];
    FeedConcat(p, text, ['\n'], cb);
    FeedLast(Feed(p, text, cb), cb);
    assert p.calls + chunks == chunks;
  }

  /** The newline seen twice changes nothing. */
  lemma FeedLast(p: Progress, cb: Callback)
    requires Ready(p)
    ensures var q := Feed(p, ['\n'], cb); q.verdict.None? && q.calls == p.calls
  {
    FeedOne(p, '\n', [], cb);
    assert ['\n'] + [] == ['\n'];
  }

  // ---------------------------------------------------------------------------
  // What a whole file amounts to, from the bytes of its records alone

  /** The records of a file, as bytes: a count, a 16-bit address, a type from 0 to 5, as many bytes of data as the count
    says, and a byte that makes the sum zero. */
  ghost predicate GoodFile(hs: seq<string>, records: seq<seq<Byte>>) {
    && |hs| == |records|
    && forall i :: 0 <= i < |hs| ==>
      && Spells(hs[i], records[i])
      && |records[i]| >= 5 && records[i][0] == |records[i]| - 5 && records[i][3] <= 5 && Sum(records[i]) % 256 == 0
  }

  /** The first two bytes of the data as a number; bytes that are missing are zero. */
  function FirstWord(record: seq<Byte>): nat {
    (if |record| > 5 then 256 * record[4] as nat else 0) + (if |record| > 6 then record[5] as nat else 0)
  }

  /** The last address record decides where data goes: type 02 gives a segment, of 16 bytes each, type 04 the upper half
    of the address. */
  function BaseAfter(records: seq<seq<Byte>>): nat {
    if records == [] then 0
    else
      var last := records[|records| - 1];
      if |last| > 3 && last[3] == 2 then 16 * FirstWord(last)
      else if |last| > 3 && last[3] == 4 then 65536 * FirstWord(last)
      else BaseAfter(records[..|records| - 1])
  }

  /** One call for each record of type 00: its data, at its address behind the base. */
  function CallsOf(records: seq<seq<Byte>>): seq<Call> {
    if records == [] then []
    else
      var front, last := records[..|records| - 1], records[|records| - 1];
      if |last| >= 5 && last[3] == 0 then
        CallsOf(front) + [Call(BaseAfter(front) + 256 * last[1] as nat + last[2] as nat, last[4..|last| - 1])]
      else CallsOf(front)
  }

  /** What has been read stands for the base. */
  ghost predicate Stands(st: State, base: nat) {
    forall lo: nat :: Address(st.(lo := lo)) == base + lo
  }

  predicate AllTaken(calls: seq<Call>, cb: Callback) {
    forall c :: c in calls ==> cb(c)
  }

  /** The calls up to the first one that the callback refuses. */
  function Made(calls: seq<Call>, cb: Callback): seq<Call> {
    if calls == [] then []
    else if AllTaken(calls[..|calls| - 1], cb) then calls
    else Made(calls[..|calls| - 1], cb)
  }

  lemma WordIs(record: seq<Byte>)
    requires IsRecord(record)
    ensures Be16(DataOf(record)[0], DataOf(record)[1]) == FirstWord(record)
  {
    hide Sum, Be16;
    var d := record[4..|record| - 1];
    assert DataOf(record) == d + Zeros(IHEX_DATA_SIZE - |d|);
    WordOf(DataOf(record)[0], DataOf(record)[1]);
  }

  lemma WordOf(hi: Byte, lo: Byte)
    ensures Be16(hi, lo) == 256 * hi + lo
  {
  }

  lemma FileSnoc(records: seq<seq<Byte>>, last: seq<Byte>)
    requires |last| >= 5
    ensures var base := BaseAfter(records);
      && BaseAfter(records + [last]) ==
        (if last[3] == 2 then 16 * FirstWord(last) else if last[3] == 4 then 65536 * FirstWord(last) else base)
      && CallsOf(records + [last]) == CallsOf(records) +
        if last[3] == 0 then [Call(base + 256 * last[1] as nat + last[2] as nat, last[4..|last| - 1])] else []
  {
    hide FirstWord;
    assert (records + [last])[..|records|] == records;
  }

  lemma MadeSnoc(calls: seq<Call>, c: Call, cb: Callback)
    ensures Made(calls + [c], cb) == if AllTaken(calls, cb) then calls + [c] else Made(calls, cb)
    ensures AllTaken(calls + [c], cb) <==> AllTaken(calls, cb) && cb(c)
  {
    assert (calls + [c])[..|calls|] == calls;
    assert forall x :: x in calls ==> x in calls + [c];
    assert c in calls + [c];
  }

  lemma {:induction false} MadeAll(calls: seq<Call>, cb: Callback)
    requires AllTaken(calls, cb)
    ensures Made(calls, cb) == calls
  {
  }

  /** One more record. */
  lemma RecordCalls(p: Progress, records: seq<seq<Byte>>, last: seq<Byte>, q: Progress, cb: Callback)
    requires IsRecord(last) && Performs(p, last, q, cb) && Stands(p.st, BaseAfter(records))
    ensures Stands(q.st, BaseAfter(records + [last]))
    ensures var call := Call(BaseAfter(records) + 256 * last[1] as nat + last[2] as nat, last[4..|last| - 1]);
      && q.calls == p.calls + (if last[3] == 0 then [call] else [])
      && (if last[3] == 0 && !cb(call) then q.st.Valid() && q.verdict == Some(false) else Ready(q))
  {
    hide Sum, BaseAfter, FirstWord, DataOf, Be16;
    FileSnoc(records, last);
    WordIs(last);
    WordOf(last[1], last[2]);
    assert Address(p.st.(lo := Be16(last[1], last[2]))) == BaseAfter(records) + Be16(last[1], last[2]);
  }

  /** The calls of a text of records, in order: each with its own data, at the address that its own bytes and the last
    address record before it give.  The first one that the callback refuses is the last that is made, and then parse
    returns false; if none is refused it goes on. */
  lemma {:induction false} FileCalls(hs: seq<string>, records: seq<seq<Byte>>, cb: Callback)
    requires GoodFile(hs, records)
    ensures var q, calls := Feed(Progress(Initial, None, []), Text(hs), cb), CallsOf(records);
      && q.st.Valid() && q.calls == Made(calls, cb)
      && (if AllTaken(calls, cb) then Ready(q) && Stands(q.st, BaseAfter(records)) else q.verdict == Some(false))
    decreases |hs|
  {
    hide Feed, IsRecord, Performs, Spells, BaseAfter, Made, AllTaken, Stands, Line;
    if hs == [] {
      NoFile(cb);
    } else {
      var k := |hs| - 1;
      FileCalls(hs[..k], records[..k], cb);
      var q, last, calls := Feed(Progress(Initial, None, []), Text(hs[..k]), cb), records[k], CallsOf(records[..k]);
      FeedConcat(Progress(Initial, None, []), Text(hs[..k]), Line(hs[k]), cb);
      assert records[..k] + [last] == records;
      FileSnoc(records[..k], last);
      var address := BaseAfter(records[..k]) + 256 * last[1] as nat + last[2] as nat;
      if last[3] == 0 { MadeSnoc(calls, Call(address, last[4..|last| - 1]), cb); }
      if AllTaken(calls, cb) {
        MadeAll(calls, cb);
        TakenRecord(hs[k], last);
        FeedLine(q, hs[k], last, cb);
        RecordCalls(q, records[..k], last, Feed(q, Line(hs[k]), cb), cb);
      } else {
        FeedNothing(q, Line(hs[k]), cb);
      }
    }
  }

  lemma NoFile(cb: Callback)
    ensures Feed(Progress(Initial, None, []), Text([]), cb) == Progress(Initial, None, [])
    ensures CallsOf([]) == [] && Made([], cb) == [] && AllTaken([], cb) && Stands(Initial, BaseAfter([]))
  {
  }

  lemma TakenRecord(h: string, record: seq<Byte>)
    requires Spells(h, record)
    ensures IsRecord(record) <==>
      |record| >= 5 && record[0] == |record| - 5 && record[3] <= 5 && Sum(record) % 256 == 0
  {
    hide Spells;
  }

  lemma FeedNothing(p: Progress, s: string, cb: Callback)
    requires p.st.Valid() && p.verdict.Some?
    ensures Feed(p, s, cb) == p
  {
  }

  /** So parse makes those calls of a file, and returns true if the callback takes them all and false if not. */
  lemma FileParsed(hs: seq<string>, records: seq<seq<Byte>>, stale: char, cb: Callback)
    requires GoodFile(hs, records) && hs != []
    ensures var q := Feed(Progress(Initial, None, []), Stream(Text(hs), stale), cb);
      q.calls == Made(CallsOf(records), cb) && (q.verdict != Some(false) <==> AllTaken(CallsOf(records), cb))
  {
    hide Feed, Spells, CallsOf, Made, AllTaken, Sum;
    FileCalls(hs, records, cb);
    var p := Progress(Initial, None, []);
    assert Text(hs)[|Text(hs)| - 1] == '\n';
    FeedConcat(p, Text(hs), ['\n'], cb);
    var q := Feed(p, Text(hs), cb);
    if Ready(q) { FeedLast(q, cb); } else { FeedNothing(q, ['\n'], cb); }
  }

  /** Between records: line ends are passed over, a NUL ends the file whatever follows, and anything else but a colon is
    an error. */
  lemma BetweenRecords(p: Progress, c: char, s: string, cb: Callback) returns (r: Progress)
    requires Ready(p) && c != ':'
    ensures r.st.Valid() && r.calls == p.calls && Feed(p, [c] + s, cb) == Feed(r, s, cb)
    ensures c == '\n' || c == '\r' ==> Ready(r) && r.st.hi == p.st.hi && r.st.segment == p.st.segment
    ensures c != '\n' && c != '\r' ==> Feed(r, s, cb) == r && r.verdict == Some(c == '\0')
  {
    FeedOne(p, c, s, cb);
    r := Advance(p, c, cb);
    if r.verdict.Some? { FeedNothing(r, s, cb); }
  }
}
