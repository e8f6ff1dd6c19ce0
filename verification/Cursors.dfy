/** The bounds-checked reader over the raw dex bytes, with the LEB128 forms
    (section 7.6 of DWARF Version 3). */
module Cursors {
  import opened Wrappers
  import opened Seqs

  type Octet = b: int | 0 <= b < 256

  const TWO32: nat := 0x1_0000_0000

  /** What reading at a position yields: a value and the next position, or the offset
      the error reports and the position at which the reader is left. */
  datatype Parsed<+T> = Done(value: T, next: nat) | Failed(off: nat, stop: nat)

  function Outcome<T>(r: Result<T, nat>, pos: nat): Parsed<T> {
    match r
    case Ok(v) => Done(v, pos)
    case Err(off) => Failed(off, pos)
  }

  /** The bytes `bs` stand in `d` at position `p`. */
  predicate At(d: seq<Octet>, p: nat, bs: seq<Octet>)
    ensures At(d, p, bs) ==> p + |bs| <= |d|
    decreases bs
  {
    if bs == [] then p <= |d| else p < |d| && d[p] == bs[0] && At(d, p + 1, bs[1..])
  }

  lemma {:induction false} AtSlice(d: seq<Octet>, p: nat, bs: seq<Octet>)
    ensures At(d, p, bs) <==> p + |bs| <= |d| && d[p..p + |bs|] == bs
    decreases bs
  {
    if bs != [] && p < |d| {
      AtSlice(d, p + 1, bs[1..]);
      if p + |bs| <= |d| {
        assert d[p..p + |bs|] == [d[p]] + d[p + 1..p + |bs|];
        Split(bs, 1);
      }
    }
  }

  lemma {:induction false} AtParts(d: seq<Octet>, p: nat, a: seq<Octet>, b: seq<Octet>)
    ensures At(d, p, a + b) <==> At(d, p, a) && At(d, p + |a|, b)
    decreases a
  {
    if a == [] {
      Empty(b);
    } else {
      DropLeft(a, b, 1);
      if p < |d| {
        AtParts(d, p + 1, a[1..], b);
      }
    }
  }

  // ---- fixed-width little-endian numbers ----

  function Pow256(n: nat): (r: nat)
    ensures r > 0
  {
    if n == 0 then 1 else 256 * Pow256(n - 1)
  }

  function LeValue(bs: seq<Octet>): nat {
    if bs == [] then 0 else bs[0] + 256 * LeValue(bs[1..])
  }

  /** The n low-order bytes of v. */
  function LeBytes(v: nat, n: nat): (bs: seq<Octet>)
    ensures |bs| == n
  {
    if n == 0 then [] else [v % 256] + LeBytes(v / 256, n - 1)
  }

  lemma {:induction false} LeBound(bs: seq<Octet>)
    ensures LeValue(bs) < Pow256(|bs|)
  {
    if bs != [] {
      LeBound(bs[1..]);
    }
  }

  lemma {:induction false} LeRoundTrip(v: nat, n: nat)
    requires v < Pow256(n)
    ensures LeValue(LeBytes(v, n)) == v
  {
    if n > 0 {
      LeRoundTrip(v / 256, n - 1);
      assert LeBytes(v, n)[1..] == LeBytes(v / 256, n - 1);
    }
  }

  lemma {:induction false} LeSnoc(bs: seq<Octet>, b: Octet)
    ensures LeValue(bs + [b]) == LeValue(bs) + b * Pow256(|bs|)
  {
    if bs == [] {
      assert bs + [b] == [b];
    } else {
      DropLeft(bs, [b], 1);
      LeSnoc(bs[1..], b);
    }
  }

  function ReadLe(d: seq<Octet>, p: nat, n: nat): Parsed<nat>
    requires p <= |d|
  {
    if p + n > |d| then Failed(|d|, |d|) else Done(LeValue(d[p..p + n]), p + n)
  }

  // ---- LEB128 ----

  function Pow128(k: nat): (r: nat)
    ensures r > 0
  {
    if k == 0 then 1 else 128 * Pow128(k - 1)
  }

  /** The value of a string of 7-bit groups, least significant first. */
  function Groups(bs: seq<Octet>): nat {
    if bs == [] then 0 else bs[0] % 128 + 128 * Groups(bs[1..])
  }

  lemma {:induction false} GroupsBound(bs: seq<Octet>)
    ensures Groups(bs) < Pow128(|bs|)
  {
    if bs != [] {
      GroupsBound(bs[1..]);
    }
  }

  /** The group of `b` in place k. */
  function Placed(b: Octet, k: nat): nat {
    if k == 0 then b % 128 else 128 * Placed(b, k - 1)
  }

  lemma {:induction false} GroupsSnoc(bs: seq<Octet>, b: Octet)
    ensures Groups(bs + [b]) == Groups(bs) + Placed(b, |bs|)
  {
    if bs == [] {
      assert bs + [b] == [b];
    } else {
      DropLeft(bs, [b], 1);
      GroupsSnoc(bs[1..], b);
    }
  }

  /** Bytes of which exactly the last has its high bit clear. */
  predicate Terminated(bs: seq<Octet>) {
    bs != [] && if |bs| == 1 then bs[0] < 128 else bs[0] >= 128 && Terminated(bs[1..])
  }

  /** A LEB128 string the reader accepts: terminated, at most five bytes. */
  predicate IsLeb(bs: seq<Octet>) {
    Terminated(bs) && |bs| <= 5
  }

  lemma {:induction false} TerminatedBytes(bs: seq<Octet>)
    ensures Terminated(bs) <==> bs != [] && bs[|bs| - 1] < 128 && HighBits(bs[..|bs| - 1])
  {
    if |bs| > 1 {
      TerminatedBytes(bs[1..]);
      assert bs[1..][..|bs| - 2] == bs[..|bs| - 1][1..];
    }
  }

  predicate HighBits(bs: seq<Octet>) {
    forall i :: 0 <= i < |bs| ==> bs[i] >= 128
  }

  /** Scans from `p` for the byte that ends the string begun at `start`. */
  function LebEnd(d: seq<Octet>, start: nat, p: nat): (r: Parsed<()>)
    requires start <= p <= start + 4 && p <= |d|
    ensures r.Done? ==> p < r.next <= |d| && r.next <= start + 5
    decreases start + 4 - p
  {
    if p >= |d| then Failed(p, p)
    else if d[p] < 128 then Done((), p + 1)
    else if p == start + 4 then Failed(p, p + 1)
    else LebEnd(d, start, p + 1)
  }

  /** The groups of the bytes from `p` up to `end`. */
  function GroupsAt(d: seq<Octet>, p: nat, end: nat): nat
    requires end <= |d|
    decreases end - p
  {
    if p >= end then 0 else d[p] % 128 + 128 * GroupsAt(d, p + 1, end)
  }

  lemma {:induction false} GroupsAtSlice(d: seq<Octet>, p: nat, end: nat)
    requires p <= end <= |d|
    ensures GroupsAt(d, p, end) == Groups(d[p..end])
    decreases end - p
  {
    if p < end {
      GroupsAtSlice(d, p + 1, end);
      assert d[p..end][1..] == d[p + 1..end];
    }
  }

  /** `uleb128`: groups shifted beyond 32 bits are lost. */
  function ReadUleb(d: seq<Octet>, p: nat): (r: Parsed<nat>)
    requires p <= |d|
    ensures r.Done? ==> p < r.next <= |d| && r.value < TWO32
  {
    match LebEnd(d, p, p)
    case Done(_, next) => Done(GroupsAt(d, p, next) % TWO32, next)
    case Failed(off, stop) => Failed(off, stop)
  }

  function Signed32(v: nat): int
    requires v < TWO32
  {
    if v >= 0x8000_0000 then v - TWO32 else v
  }

  /** The value `sleb128` gives to a terminated string. */
  function SlebValue(bs: seq<Octet>): int
    requires IsLeb(bs)
  {
    if |bs| < 5 then Groups(bs) - SignTail(bs)
    else Signed32(Groups(bs) % TWO32)
  }

  function ReadSleb(d: seq<Octet>, p: nat): (r: Parsed<int>)
    requires p <= |d|
    ensures r.Done? ==> p < r.next <= |d|
  {
    match LebEnd(d, p, p)
    case Done(_, next) => LebEndExact(d, p, p); Done(SlebValue(d[p..next]), next)
    case Failed(off, stop) => Failed(off, stop)
  }

  /** Without a byte below 128 among the next five, reading fails: at the fifth of them, which
      has been read, or at the end of the data if that comes first. */
  lemma {:induction false} ScanFails(d: seq<Octet>, start: nat, p: nat)
    requires start <= p <= start + 4 && p <= |d|
    requires forall i :: p <= i < start + 5 && i < |d| ==> d[i] >= 128
    ensures LebEnd(d, start, p) == if |d| < start + 5 then Failed(|d|, |d|) else Failed(start + 4, start + 5)
    decreases start + 4 - p
  {
    if p < start + 4 && p < |d| {
      ScanFails(d, start, p + 1);
    }
  }

  /** The same of both readers. */
  lemma LebFails(d: seq<Octet>, p: nat)
    requires p <= |d| && forall i :: p <= i < p + 5 && i < |d| ==> d[i] >= 128
    ensures var (off, stop) := if |d| < p + 5 then (|d|, |d|) else (p + 4, p + 5);
      ReadUleb(d, p) == Failed(off, stop) && ReadSleb(d, p) == Failed(off, stop)
  {
    ScanFails(d, p, p);
  }

  lemma ButLast(d: seq<Octet>, start: nat, p: nat)
    requires start <= p < |d|
    ensures var bs := d[start..p + 1]; bs[|bs| - 1] == d[p] && bs[..|bs| - 1] == d[start..p]
  {
    assert d[start..p + 1][..p - start] == d[start..p];
  }

  /** The scan stops exactly at the end of a terminated string. */
  lemma {:induction false} LebEndExact(d: seq<Octet>, start: nat, p: nat)
    requires start <= p <= start + 4 && p <= |d|
    requires forall i :: start <= i < p ==> d[i] >= 128
    ensures LebEnd(d, start, p).Done? ==> IsLeb(d[start..LebEnd(d, start, p).next])
    decreases start + 4 - p
  {
    if p < |d| && d[p] >= 128 && p < start + 4 {
      LebEndExact(d, start, p + 1);
    } else if p < |d| && d[p] < 128 {
      ButLast(d, start, p);
      TerminatedBytes(d[start..p + 1]);
    }
  }

  lemma {:induction false} LebEndAt(d: seq<Octet>, start: nat, next: nat, p: nat)
    requires start <= p < next <= |d| && IsLeb(d[start..next])
    ensures LebEnd(d, start, p) == Done((), next)
    decreases next - p
  {
    var bs := d[start..next];
    TerminatedBytes(bs);
    assert d[p] == bs[p - start];
    if p + 1 < next {
      assert bs[p - start] == bs[..|bs| - 1][p - start];
      LebEndAt(d, start, next, p + 1);
    }
  }

  lemma UlebAt(d: seq<Octet>, p: nat, bs: seq<Octet>)
    requires At(d, p, bs) && IsLeb(bs)
    ensures ReadUleb(d, p) == Done(Groups(bs) % TWO32, p + |bs|)
  {
    AtSlice(d, p, bs);
    LebEndAt(d, p, p + |bs|, p);
    GroupsAtSlice(d, p, p + |bs|);
  }

  /** `uleb128` reads exactly the terminated strings of at most five bytes. */
  lemma UlebExact(d: seq<Octet>, p: nat, v: nat, next: nat)
    requires p <= |d|
    ensures ReadUleb(d, p) == Done(v, next)
       <==> p <= next <= |d| && IsLeb(d[p..next]) && v == Groups(d[p..next]) % TWO32
  {
    LebEndExact(d, p, p);
    if p <= next <= |d| {
      GroupsAtSlice(d, p, next);
      if IsLeb(d[p..next]) {
        LebEndAt(d, p, next, p);
      }
    }
  }

  // ---- the encoders ----

  function EncodeUleb(v: nat): seq<Octet> {
    if v < 128 then [v] else [v % 128 + 128] + EncodeUleb(v / 128)
  }

  lemma {:induction false} EncodeUlebLeb(v: nat, k: nat)
    requires 1 <= k <= 5 && v < Pow128(k)
    ensures IsLeb(EncodeUleb(v)) && |EncodeUleb(v)| <= k && Groups(EncodeUleb(v)) == v
    decreases k
  {
    if v >= 128 {
      assert Pow128(1) == 128;
      EncodeUlebLeb(v / 128, k - 1);
      var tail := EncodeUleb(v / 128);
      var bs := EncodeUleb(v);
      assert bs[1..] == tail;
    }
  }

  lemma LastGroup(bs: seq<Octet>)
    requires |bs| == 1 && bs[0] < 128
    ensures IsLeb(bs) && Groups(bs) == bs[0] as nat < TWO32
  {
    assert Groups(bs[1..]) == 0;
  }

  lemma TwoGroups(bs: seq<Octet>)
    requires |bs| == 2 && bs[0] >= 128 && bs[1] < 128
    ensures IsLeb(bs) && Groups(bs) == bs[0] as nat - 128 + 128 * bs[1] as nat < TWO32
  {
    LastGroup(bs[1..]);
  }

  lemma UlebOf(d: seq<Octet>, p: nat, bs: seq<Octet>)
    requires p + |bs| <= |d| && bs == d[p..p + |bs|] && IsLeb(bs) && Groups(bs) < TWO32
    ensures ReadUleb(d, p) == Done(Groups(bs), p + |bs|)
  {
    AtSlice(d, p, bs);
    UlebAt(d, p, bs);
  }

  /** The low group comes first: of one byte, and of two. */
  lemma UlebShort(d: seq<Octet>, p: nat)
    requires p < |d|
    ensures d[p] < 128 ==> ReadUleb(d, p) == Done(d[p] as nat, p + 1)
    ensures d[p] >= 128 && p + 1 < |d| && d[p + 1] < 128
        ==> ReadUleb(d, p) == Done(d[p] as nat - 128 + 128 * d[p + 1] as nat, p + 2)
  {
    if d[p] < 128 {
      LastGroup(d[p..p + 1]);
      UlebOf(d, p, d[p..p + 1]);
    } else if p + 1 < |d| && d[p + 1] < 128 {
      TwoGroups(d[p..p + 2]);
      UlebOf(d, p, d[p..p + 2]);
    }
  }

  /** The low byte comes first. */
  lemma LeShort(d: seq<Octet>, p: nat)
    requires p + 1 < |d|
    ensures ReadLe(d, p, 1) == Done(d[p] as nat, p + 1)
    ensures ReadLe(d, p, 2) == Done(d[p] as nat + 256 * d[p + 1] as nat, p + 2)
  {
    var one, two, last := d[p..p + 1], d[p..p + 2], d[p + 1..p + 2];
    assert one[1..] == [] && last[1..] == [] && two[1..] == last;
    assert LeValue(one) == d[p] as nat && LeValue(last) == d[p + 1] as nat;
  }

  /** `uleb128` inverts the encoder on every 32-bit value. */
  lemma UlebRoundTrip(d: seq<Octet>, p: nat, v: nat)
    requires v < TWO32 && At(d, p, EncodeUleb(v))
    ensures ReadUleb(d, p) == Done(v, p + |EncodeUleb(v)|)
  {
    FivePow128();
    EncodeUlebLeb(v, 5);
    UlebAt(d, p, EncodeUleb(v));
  }

  /** The signed encoder of the standard: stop once the rest is all sign bits. */
  function EncodeSleb(x: int): seq<Octet>
    decreases if x < 0 then -x else x
  {
    var low, rest := x % 128, x / 128;
    if (rest == 0 && low < 64) || (rest == -1 && low >= 64) then [low]
    else [low + 128] + EncodeSleb(rest)
  }

  function SignTail(bs: seq<Octet>): nat
    requires bs != []
  {
    if bs[|bs| - 1] >= 64 then Pow128(|bs|) else 0
  }

  lemma SlebStep(x: int, p: nat)
    requires p % 2 == 0 && 0 <= 2 * x + 128 * p && 2 * x < 128 * p
    ensures 0 <= 2 * (x / 128) + p && 2 * (x / 128) < p
  {
  }

  /** A value that needs more than its low seven bits does not fit one byte. */
  lemma SlebLong(x: int, k: nat)
    requires !(x / 128 == 0 && x % 128 < 64) && !(x / 128 == -1 && x % 128 >= 64)
    requires 1 <= k <= 5 && 0 <= 2 * x + Pow128(k) && 2 * x < Pow128(k)
    ensures k > 1 && Pow128(k - 1) % 2 == 0
  {
  }

  lemma {:induction false} EncodeSlebLeb(x: int, k: nat)
    requires 1 <= k <= 5 && 0 <= 2 * x + Pow128(k) && 2 * x < Pow128(k)
    ensures IsLeb(EncodeSleb(x)) && |EncodeSleb(x)| <= k
    ensures Groups(EncodeSleb(x)) - SignTail(EncodeSleb(x)) == x
    decreases k
  {
    var low, rest := x % 128, x / 128;
    if (rest == 0 && low < 64) || (rest == -1 && low >= 64) {
      assert Pow128(1) == 128;
    } else {
      SlebLong(x, k);
      assert Pow128(k) == 128 * Pow128(k - 1);
      SlebStep(x, Pow128(k - 1));
      EncodeSlebLeb(rest, k - 1);
      SlebCons(low + 128, EncodeSleb(rest));
    }
  }

  lemma SlebCons(b: Octet, tail: seq<Octet>)
    requires b >= 128 && IsLeb(tail) && |tail| < 5
    ensures IsLeb([b] + tail)
    ensures Groups([b] + tail) - SignTail([b] + tail)
         == b - 128 + 128 * (Groups(tail) - SignTail(tail))
  {
    Parts([b], tail);
    assert ([b] + tail)[|tail|] == tail[|tail| - 1];
  }

  lemma WrapSigned(x: int)
    requires -0x8000_0000 <= x < 0x8000_0000
    ensures Signed32((x + 0x8_0000_0000) % TWO32) == x
    ensures x >= 0 ==> Signed32(x % TWO32) == x
  {
  }

  /** `sleb128` inverts the encoder on every signed 32-bit value. */
  lemma SlebRoundTrip(d: seq<Octet>, p: nat, x: int)
    requires -0x8000_0000 <= x < 0x8000_0000 && At(d, p, EncodeSleb(x))
    ensures ReadSleb(d, p) == Done(x, p + |EncodeSleb(x)|)
  {
    var bs := EncodeSleb(x);
    FivePow128();
    EncodeSlebLeb(x, 5);
    AtSlice(d, p, bs);
    LebEndAt(d, p, p + |bs|, p);
    WrapSigned(x);
  }

  lemma FivePow128()
    ensures Pow128(5) == 0x8_0000_0000
  {
  }

  // ---- the cursor ----

  /** The low seven bits of a byte, moved up by k groups within 32 bits. */
  function Shifted(b: Octet, k: nat): nat {
    if k == 0 then b % 128 else 128 * Shifted(b, k - 1) % TWO32
  }

  /** The sum of the groups of the k bytes at `p`, each shifted to its place. */
  function Gathered(d: seq<Octet>, p: nat, k: nat): nat
    requires p + k <= |d|
  {
    if k == 0 then 0 else Gathered(d, p, k - 1) + Shifted(d[p + k - 1], k - 1)
  }

  class Cursor {
    const data: seq<Octet>
    var pos: nat

    ghost predicate Valid()
      reads this
    {
      pos <= |data|
    }

    constructor (data: seq<Octet>)
      ensures Valid() && this.data == data && pos == 0
    {
      this.data := data;
      pos := 0;
    }

    method Seek(p: nat) returns (r: Result<(), nat>)
      requires Valid()
      modifies this
      ensures Valid()
      ensures if p <= |data| then r == Ok(()) && pos == p else r == Err(p) && pos == old(pos)
    {
      if p > |data| {
        return Err(p);
      }
      pos := p;
      r := Ok(());
    }

    method U8() returns (r: Result<Octet, nat>)
      requires Valid()
      modifies this
      ensures Valid()
      ensures if old(pos) < |data| then r == Ok(data[old(pos)]) && pos == old(pos) + 1
              else r == Err(old(pos)) && pos == old(pos)
    {
      if pos >= |data| {
        return Err(pos);
      }
      r := Ok(data[pos]);
      pos := pos + 1;
    }

    /** The byte loops of `read_signed` and `read_unsigned`, lowest byte first. */
    method Le(n: nat) returns (r: Result<nat, nat>)
      requires Valid()
      modifies this
      ensures Valid()
      ensures Outcome(r, pos) == ReadLe(data, old(pos), n)
    {
      var v := 0;
      for i := 0 to n
        invariant Valid() && pos == old(pos) + i
        invariant v == LeValue(data[old(pos)..pos])
      {
        var b := U8();
        if b.Err? {
          return Err(b.error);
        }
        LeSnoc(data[old(pos)..pos - 1], b.value);
        assert data[old(pos)..pos] == data[old(pos)..pos - 1] + [b.value];
        v := v + b.value * Pow256(i);
      }
      r := Ok(v);
    }

    method Uleb128() returns (r: Result<nat, nat>)
      requires Valid()
      modifies this
      ensures Valid()
      ensures Outcome(r, pos) == ReadUleb(data, old(pos))
    {
      var result, shift := 0, 0;
      var k := 0;
      while true
        invariant Valid() && shift == 7 * k && k < 5 && pos == old(pos) + k
        invariant forall i :: old(pos) <= i < pos ==> data[i] >= 128
        invariant result == Gathered(data, old(pos), k)
        decreases 35 - shift
      {
        LebEndBy(data, old(pos), pos);
        var b := U8();
        if b.Err? {
          return Err(b.error);
        }
        result := result + Shifted(b.value, k);
        if b.value < 128 {
          UlebEnd(data, old(pos), k + 1);
          return Ok(result);
        }
        shift := shift + 7;
        if shift >= 35 {
          return Err(pos - 1);
        }
        k := k + 1;
      }
    }

    method Sleb128() returns (r: Result<int, nat>)
      requires Valid()
      modifies this
      ensures Valid()
      ensures Outcome(r, pos) == ReadSleb(data, old(pos))
    {
      var bits, shift := 0, 0;
      var k := 0;
      while true
        invariant Valid() && shift == 7 * k && k < 5 && pos == old(pos) + k
        invariant forall i :: old(pos) <= i < pos ==> data[i] >= 128
        invariant bits == Gathered(data, old(pos), k)
        decreases 35 - shift
      {
        LebEndBy(data, old(pos), pos);
        var b := U8();
        if b.Err? {
          return Err(b.error);
        }
        bits := bits + Shifted(b.value, k);
        shift := shift + 7;
        if b.value < 128 {
          SlebEnd(data, old(pos), k + 1);
          return Ok(if shift < 32 && b.value >= 64 then bits - Pow128(k + 1)
                    else Signed32(bits));
        }
        if shift >= 35 {
          return Err(pos - 1);
        }
        k := k + 1;
      }
    }
  }

  /** After continuation bytes only, the scan is where it was. */
  lemma {:induction false} LebEndBy(d: seq<Octet>, start: nat, p: nat)
    requires start <= p <= start + 4 && p <= |d|
    requires forall i :: start <= i < p ==> d[i] >= 128
    ensures LebEnd(d, start, start) == LebEnd(d, start, p)
    decreases p
  {
    if start < p {
      LebEndBy(d, start, p - 1);
    }
  }

  /** Only the fifth group loses bits. */
  lemma {:induction false} ShiftedPlaced(b: Octet, k: nat)
    requires k < 5
    ensures k < 4 ==> Shifted(b, k) == Placed(b, k) < 0x1000_0000
    ensures k == 4 ==> Placed(b, k) == 0x1000_0000 * (b % 128)
    ensures k == 4 ==> Shifted(b, k) == Placed(b, k) % TWO32
  {
    assert Placed(b, 1) == 128 * (b % 128);
    assert Placed(b, 2) == 128 * Placed(b, 1);
    assert Placed(b, 3) == 128 * Placed(b, 2);
    if k > 0 {
      ShiftedPlaced(b, k - 1);
    }
  }

  lemma {:induction false} GatheredFour(d: seq<Octet>, p: nat, k: nat)
    requires k <= 4 && p + k <= |d|
    ensures Gathered(d, p, k) == Groups(d[p..p + k]) < 0x1000_0000
  {
    GroupsBound(d[p..p + k]);
    assert Pow128(4) == 0x1000_0000;
    PowGrows(k, 4);
    if k > 0 {
      var last := d[p + k - 1];
      GatheredFour(d, p, k - 1);
      assert d[p..p + k] == d[p..p + k - 1] + [last];
      GroupsSnoc(d[p..p + k - 1], last);
      ShiftedPlaced(last, k - 1);
    }
  }

  lemma {:induction false} PowGrows(j: nat, k: nat)
    requires j <= k
    ensures Pow128(j) <= Pow128(k)
    decreases k
  {
    if j < k {
      PowGrows(j, k - 1);
    }
  }

  lemma ModOfSum(q: nat, y: nat)
    requires y < TWO32
    ensures (q * TWO32 + y) % TWO32 == y
  {
  }

  lemma FifthGroup(g: nat, c: nat)
    requires g < 0x1000_0000
    ensures (g + 0x1000_0000 * c) % TWO32 == g + 0x1000_0000 * c % TWO32
  {
    var q, r := c / 16, c % 16;
    ModOfSum(q, 0x1000_0000 * r);
    ModOfSum(q, g + 0x1000_0000 * r);
  }

  lemma GatheredGroups(d: seq<Octet>, p: nat, k: nat)
    requires k <= 5 && p + k <= |d|
    ensures Gathered(d, p, k) == Groups(d[p..p + k]) % TWO32
    ensures k < 5 ==> Groups(d[p..p + k]) < 0x1000_0000
  {
    if k < 5 {
      GatheredFour(d, p, k);
    } else {
      var last := d[p + 4];
      GatheredFour(d, p, 4);
      assert d[p..p + 5] == d[p..p + 4] + [last];
      GroupsSnoc(d[p..p + 4], last);
      ShiftedPlaced(last, 4);
      FifthGroup(Groups(d[p..p + 4]), last % 128);
    }
  }

  lemma UlebEnd(d: seq<Octet>, p: nat, k: nat)
    requires 0 < k <= 5 && p + k <= |d| && LebEnd(d, p, p) == Done((), p + k)
    ensures ReadUleb(d, p) == Done(Gathered(d, p, k), p + k)
  {
    GatheredGroups(d, p, k);
    GroupsAtSlice(d, p, p + k);
  }

  lemma SlebEnd(d: seq<Octet>, p: nat, k: nat)
    requires 0 < k <= 5 && p + k <= |d| && LebEnd(d, p, p) == Done((), p + k)
    ensures Gathered(d, p, k) < TWO32
    ensures ReadSleb(d, p) == Done(if k < 5 && d[p + k - 1] >= 64 then Gathered(d, p, k) - Pow128(k)
                                   else Signed32(Gathered(d, p, k)), p + k)
  {
    LebEndExact(d, p, p);
    GatheredGroups(d, p, k);
    assert d[p..p + k][k - 1] == d[p + k - 1];
  }
}
