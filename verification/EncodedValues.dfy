/** `EncodedValue::decode`: the recursive decoder of dex `encoded_value`s. */
module EncodedValues {
  import opened Wrappers
  import opened Seqs
  import opened Cursors

  datatype Kind = Byte | Short | Char | Int | Long | Float | Double
                | MethodType | MethodHandle | String | Type | Field | Method | Enum

  /** A decoded value. Floating-point values are their bit patterns. */
  datatype Value =
    | Num(kind: Kind, num: int)
    | Array(items: seq<Value>)
    | Annotation(typeIdx: nat, elements: seq<Element>)
    | Null
    | Bool(b: bool)

  datatype Element = Element(name: nat, value: Value)

  function Code(k: Kind): nat {
    match k
    case Byte => 0x00
    case Short => 0x02
    case Char => 0x03
    case Int => 0x04
    case Long => 0x06
    case Float => 0x10
    case Double => 0x11
    case MethodType => 0x15
    case MethodHandle => 0x16
    case String => 0x17
    case Type => 0x18
    case Field => 0x19
    case Method => 0x1a
    case Enum => 0x1b
  }

  function KindOf(code: nat): Option<Kind> {
    match code
    case 0x00 => Some(Byte)
    case 0x02 => Some(Short)
    case 0x03 => Some(Char)
    case 0x04 => Some(Int)
    case 0x06 => Some(Long)
    case 0x10 => Some(Float)
    case 0x11 => Some(Double)
    case 0x15 => Some(MethodType)
    case 0x16 => Some(MethodHandle)
    case 0x17 => Some(String)
    case 0x18 => Some(Type)
    case 0x19 => Some(Field)
    case 0x1a => Some(Method)
    case 0x1b => Some(Enum)
    case _ => None
  }

  /** The greatest payload width in bytes. */
  function Width(k: Kind): nat {
    match k
    case Byte => 1
    case Short => 2
    case Char => 2
    case Long => 8
    case Double => 8
    case _ => 4
  }

  predicate IsSigned(k: Kind) {
    k.Byte? || k.Short? || k.Int? || k.Long?
  }

  /** What n payload bytes with little-endian value v stand for: signed kinds are
      sign-extended, floating-point kinds are filled with zeros on the right. */
  function NumValue(k: Kind, v: nat, n: nat): int
    requires 1 <= n <= Width(k)
  {
    if IsSigned(k) then (if 2 * v >= Pow256(n) then v - Pow256(n) else v)
    else if k.Float? then v * Pow256(4 - n)
    else if k.Double? then v * Pow256(8 - n)
    else v
  }

  // ---- the decoder as a function of the bytes ----

  function Decode(d: seq<Octet>, p: nat): (r: Parsed<Value>)
    requires p <= |d|
    ensures r.Done? ==> p < r.next <= |d|
    decreases |d| - p, 0
  {
    if p >= |d| then Failed(p, p)
    else
      var code, arg, q := d[p] % 32, d[p] / 32, p + 1;
      if KindOf(code).Some? then
        if arg < Width(KindOf(code).value) then DecodeNum(d, q, KindOf(code).value, arg + 1)
        else Failed(p, q)
      else if code == 0x1c && arg == 0 then DecodeArray(d, q)
      else if code == 0x1d && arg == 0 then DecodeAnnotation(d, q)
      else if code == 0x1e && arg == 0 then Done(Null, q)
      else if code == 0x1f && arg <= 1 then Done(Bool(arg != 0), q)
      else Failed(p, q)
  }

  function DecodeNum(d: seq<Octet>, q: nat, k: Kind, n: nat): (r: Parsed<Value>)
    requires q <= |d| && 1 <= n <= Width(k)
    ensures r.Done? ==> q <= r.next <= |d|
  {
    match ReadLe(d, q, n)
    case Done(v, next) => Done(Num(k, NumValue(k, v, n)), next)
    case Failed(off, stop) => Failed(off, stop)
  }

  function DecodeArray(d: seq<Octet>, q: nat): (r: Parsed<Value>)
    requires q <= |d|
    ensures r.Done? ==> q <= r.next <= |d|
    decreases |d| - q, 1
  {
    match ReadUleb(d, q)
    case Failed(off, stop) => Failed(off, stop)
    case Done(n, next) =>
      match DecodeItems(d, next, n)
      case Done(items, end) => Done(Array(items), end)
      case Failed(off, stop) => Failed(off, stop)
  }

  function DecodeAnnotation(d: seq<Octet>, q: nat): (r: Parsed<Value>)
    requires q <= |d|
    ensures r.Done? ==> q <= r.next <= |d|
    decreases |d| - q, 1
  {
    match ReadUleb(d, q)
    case Failed(off, stop) => Failed(off, stop)
    case Done(typeIdx, next) =>
      match ReadUleb(d, next)
      case Failed(off, stop) => Failed(off, stop)
      case Done(n, after) =>
        match DecodeElements(d, after, n)
        case Done(elements, end) => Done(Annotation(typeIdx, elements), end)
        case Failed(off, stop) => Failed(off, stop)
  }

  function DecodeItems(d: seq<Octet>, p: nat, n: nat): (r: Parsed<seq<Value>>)
    requires p <= |d|
    ensures r.Done? ==> p <= r.next <= |d|
    decreases |d| - p, n + 1
  {
    if n == 0 then Done([], p)
    else match Decode(d, p)
      case Failed(off, stop) => Failed(off, stop)
      case Done(v, next) => Prepend([v], DecodeItems(d, next, n - 1))
  }

  function DecodeElements(d: seq<Octet>, p: nat, n: nat): (r: Parsed<seq<Element>>)
    requires p <= |d|
    ensures r.Done? ==> p <= r.next <= |d|
    decreases |d| - p, n + 1
  {
    if n == 0 then Done([], p)
    else match ReadUleb(d, p)
      case Failed(off, stop) => Failed(off, stop)
      case Done(name, q) =>
        match Decode(d, q)
        case Failed(off, stop) => Failed(off, stop)
        case Done(v, next) => Prepend([Element(name, v)], DecodeElements(d, next, n - 1))
  }

  function Prepend<T>(front: seq<T>, r: Parsed<seq<T>>): Parsed<seq<T>> {
    match r
    case Done(rest, next) => Done(front + rest, next)
    case Failed(off, stop) => Failed(off, stop)
  }

  // ---- the format: encodings as concrete syntax trees ----

  datatype Wire =
    | WNum(kind: Kind, payload: seq<Octet>)
    | WArray(count: seq<Octet>, items: seq<Wire>)
    | WAnnotation(typeIdx: seq<Octet>, count: seq<Octet>, elements: seq<WElement>)
    | WNull
    | WBool(b: bool)

  datatype WElement = WElement(name: seq<Octet>, value: Wire)

  /** A LEB128 string that denotes the given 32-bit number. */
  predicate Denotes(bs: seq<Octet>, v: nat) {
    IsLeb(bs) && Groups(bs) % TWO32 == v
  }

  predicate Legal(w: Wire)
    decreases w
  {
    match w
    case WNum(k, payload) => 1 <= |payload| <= Width(k)
    case WArray(count, items) => Denotes(count, |items|) && LegalItems(items)
    case WAnnotation(typeIdx, count, elements) =>
      IsLeb(typeIdx) && Denotes(count, |elements|) && LegalElements(elements)
    case _ => true
  }

  predicate LegalItems(ws: seq<Wire>)
    decreases ws
  {
    ws == [] || (Legal(ws[0]) && LegalItems(ws[1..]))
  }

  predicate LegalElements(ws: seq<WElement>)
    decreases ws
  {
    ws == [] || (IsLeb(ws[0].name) && Legal(ws[0].value) && LegalElements(ws[1..]))
  }

  /** Header byte (three bits of argument, five of type), then the payload. */
  function Bytes(w: Wire): seq<Octet>
    requires Legal(w)
    decreases w
  {
    match w
    case WNum(k, payload) => [(|payload| - 1) * 32 + Code(k)] + payload
    case WArray(count, items) => [0x1c] + (count + ItemBytes(items))
    case WAnnotation(typeIdx, count, elements) =>
      [0x1d] + (typeIdx + (count + ElementBytes(elements)))
    case WNull => [0x1e]
    case WBool(b) => [(if b then 32 else 0) + 0x1f]
  }

  function ItemBytes(ws: seq<Wire>): seq<Octet>
    requires LegalItems(ws)
    decreases ws
  {
    if ws == [] then [] else Bytes(ws[0]) + ItemBytes(ws[1..])
  }

  function ElementBytes(ws: seq<WElement>): seq<Octet>
    requires LegalElements(ws)
    decreases ws
  {
    if ws == [] then [] else ws[0].name + (Bytes(ws[0].value) + ElementBytes(ws[1..]))
  }

  function Meaning(w: Wire): Value
    requires Legal(w)
    decreases w
  {
    match w
    case WNum(k, payload) => Num(k, NumValue(k, LeValue(payload), |payload|))
    case WArray(_, items) => Array(ItemMeanings(items))
    case WAnnotation(typeIdx, _, elements) =>
      Annotation(Groups(typeIdx) % TWO32, ElementMeanings(elements))
    case WNull => Null
    case WBool(b) => Bool(b)
  }

  function ItemMeanings(ws: seq<Wire>): seq<Value>
    requires LegalItems(ws)
    decreases ws
  {
    if ws == [] then [] else [Meaning(ws[0])] + ItemMeanings(ws[1..])
  }

  function ElementMeanings(ws: seq<WElement>): seq<Element>
    requires LegalElements(ws)
    decreases ws
  {
    if ws == [] then []
    else [Element(Groups(ws[0].name) % TWO32, Meaning(ws[0].value))] + ElementMeanings(ws[1..])
  }

  // ---- the leaves, byte by byte ----

  /** The types of numbers, by their codes in the header, with the most bytes each may have. */
  predicate HasType(code: nat, k: Kind, most: nat) {
    || (code == 0x00 && k == Byte && most == 1)
    || (code == 0x02 && k == Short && most == 2)
    || (code == 0x03 && k == Char && most == 2)
    || (code == 0x04 && k == Int && most == 4)
    || (code == 0x06 && k == Long && most == 8)
    || (code == 0x10 && k == Float && most == 4)
    || (code == 0x11 && k == Double && most == 8)
    || (code == 0x15 && k == MethodType && most == 4)
    || (code == 0x16 && k == MethodHandle && most == 4)
    || (code == 0x17 && k == String && most == 4)
    || (code == 0x18 && k == Type && most == 4)
    || (code == 0x19 && k == Field && most == 4)
    || (code == 0x1a && k == Method && most == 4)
    || (code == 0x1b && k == Enum && most == 4)
  }

  /** The number that payload bytes stand for: of a signed kind, the one of their residue class
      that the same number of bytes holds in two's complement; of a floating-point kind, the
      pattern whose high bytes they are; otherwise the number they denote. */
  predicate StandsFor(k: Kind, payload: seq<Octet>, x: int) {
    var v, size := LeValue(payload), Pow256(|payload|);
    if k in {Byte, Short, Int, Long} then 0 <= 2 * x + size < 2 * size && (x == v || x + size == v)
    else if k == Float then |payload| <= 4 && x == LeValue(Zeros(4 - |payload|) + payload)
    else if k == Double then |payload| <= 8 && x == LeValue(Zeros(8 - |payload|) + payload)
    else x == v
  }

  function Zeros(n: nat): (r: seq<Octet>)
    ensures |r| == n
  {
    if n == 0 then [] else [0] + Zeros(n - 1)
  }

  lemma {:induction false} ZerosShift(n: nat, payload: seq<Octet>)
    ensures LeValue(Zeros(n) + payload) == LeValue(payload) * Pow256(n)
  {
    if n == 0 {
      Empty(payload);
    } else {
      var rest := Zeros(n - 1) + payload;
      assert Zeros(n) + payload == [0] + rest;
      Parts([0 as Octet], rest);
      ZerosShift(n - 1, payload);
      assert LeValue(payload) * Pow256(n) == 256 * (LeValue(payload) * Pow256(n - 1));
    }
  }

  lemma StandsExact(k: Kind, payload: seq<Octet>, x: int)
    requires 1 <= |payload| <= Width(k)
    ensures StandsFor(k, payload, x) <==> x == NumValue(k, LeValue(payload), |payload|)
  {
    if k == Float {
      ZerosShift(4 - |payload|, payload);
    } else if k == Double {
      ZerosShift(8 - |payload|, payload);
    } else {
      LeBound(payload);
    }
  }

  lemma TypeExact(code: nat, k: Kind, most: nat)
    requires code < 32
    ensures HasType(code, k, most) <==> KindOf(code) == Some(k) && Width(k) == most
  {
  }

  /** A number is decoded exactly from a header with the code of its kind and one less than the
      number of payload bytes, which are at most as many as the kind allows, and from a payload
      that stands for it. */
  lemma NumbersExact(d: seq<Octet>, p: nat, k: Kind, x: int, next: nat)
    requires p < |d|
    ensures Decode(d, p) == Done(Num(k, x), next)
       <==> && next == p + 2 + d[p] / 32 && next <= |d|
            && (exists most: nat :: HasType(d[p] % 32, k, most) && next - (p + 1) <= most)
            && StandsFor(k, d[p + 1..next], x)
  {
    var n := d[p] / 32 + 1;
    forall most
      ensures HasType(d[p] % 32, k, most) <==> KindOf(d[p] % 32) == Some(k) && Width(k) == most
    {
      TypeExact(d[p] % 32, k, most);
    }
    if KindOf(d[p] % 32) == Some(k) && n <= Width(k) {
      assert HasType(d[p] % 32, k, Width(k));
      NumberRead(d, p, k, x, next);
    } else {
      NoNumber(d, p, k, x, next);
    }
  }

  lemma NumberRead(d: seq<Octet>, p: nat, k: Kind, x: int, next: nat)
    requires p < |d| && KindOf(d[p] % 32) == Some(k) && d[p] / 32 + 1 <= Width(k)
    ensures Decode(d, p) == Done(Num(k, x), next)
       <==> next == p + 2 + d[p] / 32 && next <= |d| && StandsFor(k, d[p + 1..next], x)
  {
    var n := d[p] / 32 + 1;
    assert Decode(d, p) == DecodeNum(d, p + 1, k, n);
    PayloadRead(d, p + 1, k, n, x, next);
  }

  lemma PayloadRead(d: seq<Octet>, q: nat, k: Kind, n: nat, x: int, next: nat)
    requires q <= |d| && 1 <= n <= Width(k)
    ensures DecodeNum(d, q, k, n) == Done(Num(k, x), next)
       <==> next == q + n && next <= |d| && StandsFor(k, d[q..next], x)
  {
    if q + n <= |d| {
      StandsExact(k, d[q..q + n], x);
    }
  }

  lemma NoNumber(d: seq<Octet>, p: nat, k: Kind, x: int, next: nat)
    requires p < |d| && (KindOf(d[p] % 32) != Some(k) || d[p] / 32 + 1 > Width(k))
    ensures Decode(d, p) != Done(Num(k, x), next)
  {
  }

  /** The other leaves and the containers, by their header bytes. */
  lemma HeadersExact(d: seq<Octet>, p: nat, next: nat, b: bool)
    requires p < |d|
    ensures Decode(d, p) == Done(Null, next) <==> d[p] == 0x1e && next == p + 1
    ensures Decode(d, p) == Done(Bool(b), next) <==> d[p] == (if b then 0x3f else 0x1f) && next == p + 1
    ensures Decode(d, p).Done? && Decode(d, p).value.Array? ==> d[p] == 0x1c
    ensures Decode(d, p).Done? && Decode(d, p).value.Annotation? ==> d[p] == 0x1d
  {
  }

  /** An array of a truth value and null, and an annotation with one element, byte by byte: the
      count comes before the items, the type before the count, a name before its value. */
  lemma ContainersRead(d: seq<Octet>, p: nat)
    requires p + 5 <= |d|
    ensures d[p] == 0x1c && d[p + 1] == 2 && d[p + 2] == 0x3f && d[p + 3] == 0x1e
        ==> Decode(d, p) == Done(Array([Bool(true), Null]), p + 4)
    ensures d[p] == 0x1d && d[p + 1] < 128 && d[p + 2] == 1 && d[p + 3] < 128 && d[p + 4] == 0x1e
        ==> Decode(d, p) == Done(Annotation(d[p + 1], [Element(d[p + 3], Null)]), p + 5)
  {
    UlebShort(d, p + 1);
    UlebShort(d, p + 2);
    UlebShort(d, p + 3);
    if d[p] == 0x1c && d[p + 1] == 2 && d[p + 2] == 0x3f && d[p + 3] == 0x1e {
      ArrayOfTwo(d, p + 2);
    } else if d[p] == 0x1d && d[p + 1] < 128 && d[p + 2] == 1 && d[p + 3] < 128 && d[p + 4] == 0x1e {
      OneNamed(d, p + 3);
    }
  }

  lemma ArrayOfTwo(d: seq<Octet>, p: nat)
    requires p + 2 <= |d| && d[p] == 0x3f && d[p + 1] == 0x1e
    ensures DecodeItems(d, p, 2) == Done([Bool(true), Null], p + 2)
  {
    var truth, nothing, none := [Bool(true)], [Null], [];
    assert Decode(d, p) == Done(Bool(true), p + 1) && Decode(d, p + 1) == Done(Null, p + 2);
    assert DecodeItems(d, p + 2, 0) == Done(none, p + 2);
    assert nothing + none == nothing;
    assert DecodeItems(d, p + 1, 1) == Done(nothing, p + 2);
    assert truth + nothing == [Bool(true), Null];
  }

  lemma OneNamed(d: seq<Octet>, p: nat)
    requires p + 2 <= |d| && ReadUleb(d, p) == Done(d[p] as nat, p + 1) && d[p + 1] == 0x1e
    ensures DecodeElements(d, p, 1) == Done([Element(d[p], Null)], p + 2)
  {
    var one, none := [Element(d[p], Null)], [];
    assert Decode(d, p + 1) == Done(Null, p + 2);
    assert DecodeElements(d, p + 2, 0) == Done(none, p + 2);
    assert one + none == one;
  }

  // ---- decoding accepts every legal encoding ----

  lemma ReadLeAt(d: seq<Octet>, p: nat, bs: seq<Octet>)
    requires At(d, p, bs)
    ensures ReadLe(d, p, |bs|) == Done(LeValue(bs), p + |bs|)
  {
    AtSlice(d, p, bs);
  }

  /** Every legal encoding decodes to its meaning, and the reader stops just past it. */
  lemma {:induction false} DecodeLegal(d: seq<Octet>, p: nat, w: Wire)
    requires Legal(w) && At(d, p, Bytes(w))
    ensures Decode(d, p) == Done(Meaning(w), p + |Bytes(w)|)
    decreases w
  {
    match w {
      case WNum(k, payload) =>
        NumBytes(d, p, k, payload);
        NumDone(d, p, k, payload);
      case WArray(count, items) =>
        ArrayBytes(d, p, count, items);
        DecodeLegalItems(d, p + 1 + |count|, items);
        ArrayDone(d, p, count, items);
      case WAnnotation(typeIdx, count, elements) =>
        AnnotationBytes(d, p, typeIdx, count, elements);
        DecodeLegalElements(d, p + 1 + |typeIdx| + |count|, elements);
        AnnotationDone(d, p, typeIdx, count, elements);
      case WNull =>
      case WBool(b) =>
    }
  }

  lemma NumBytes(d: seq<Octet>, p: nat, k: Kind, payload: seq<Octet>)
    requires Legal(WNum(k, payload))
    ensures At(d, p, Bytes(WNum(k, payload)))
         == (At(d, p, [(|payload| - 1) * 32 + Code(k)]) && At(d, p + 1, payload))
  {
    AtParts(d, p, [(|payload| - 1) * 32 + Code(k)], payload);
  }

  lemma HeaderRead(d: seq<Octet>, p: nat, k: Kind, n: nat)
    requires 1 <= n <= Width(k) && p < |d| && d[p] == (n - 1) * 32 + Code(k)
    ensures Decode(d, p) == DecodeNum(d, p + 1, k, n)
  {
    HeaderByte(k, n);
  }

  lemma {:induction false} NumDone(d: seq<Octet>, p: nat, k: Kind, payload: seq<Octet>)
    requires Legal(WNum(k, payload))
    requires At(d, p, [(|payload| - 1) * 32 + Code(k)]) && At(d, p + 1, payload)
    ensures Decode(d, p) == Done(Meaning(WNum(k, payload)), p + 1 + |payload|)
  {
    HeaderRead(d, p, k, |payload|);
    ReadLeAt(d, p + 1, payload);
  }

  lemma {:induction false} ArrayBytes(d: seq<Octet>, p: nat, count: seq<Octet>, items: seq<Wire>)
    requires Legal(WArray(count, items))
    ensures At(d, p, Bytes(WArray(count, items)))
         == (At(d, p, [0x1c]) && At(d, p + 1, count) && At(d, p + 1 + |count|, ItemBytes(items)))
  {
    AtParts(d, p, [0x1c], count + ItemBytes(items));
    AtParts(d, p + 1, count, ItemBytes(items));
  }

  lemma ArrayDone(d: seq<Octet>, p: nat, count: seq<Octet>, items: seq<Wire>)
    requires Legal(WArray(count, items))
    requires At(d, p, [0x1c]) && At(d, p + 1, count)
    requires DecodeItems(d, p + 1 + |count|, |items|)
          == Done(ItemMeanings(items), p + 1 + |count| + |ItemBytes(items)|)
    ensures Decode(d, p) == Done(Meaning(WArray(count, items)), p + |Bytes(WArray(count, items))|)
  {
    UlebAt(d, p + 1, count);
    ContainerHead(d, p);
  }

  lemma AnnotationForm(typeIdx: seq<Octet>, count: seq<Octet>, elements: seq<WElement>)
    requires Legal(WAnnotation(typeIdx, count, elements))
    ensures var w := WAnnotation(typeIdx, count, elements);
      && Bytes(w) == [0x1d] + (typeIdx + (count + ElementBytes(elements)))
      && |Bytes(w)| == 1 + |typeIdx| + |count| + |ElementBytes(elements)|
      && Meaning(w) == Annotation(Groups(typeIdx) % TWO32, ElementMeanings(elements))
  {
  }

  lemma FourParts(d: seq<Octet>, p: nat, a: seq<Octet>, b: seq<Octet>, c: seq<Octet>, e: seq<Octet>)
    ensures At(d, p, a + (b + (c + e)))
         == (At(d, p, a) && At(d, p + |a|, b) && At(d, p + |a| + |b|, c) && At(d, p + |a| + |b| + |c|, e))
  {
    AtParts(d, p, a, b + (c + e));
    AtParts(d, p + |a|, b, c + e);
    AtParts(d, p + |a| + |b|, c, e);
  }

  lemma {:induction false} AnnotationBytes(d: seq<Octet>, p: nat, typeIdx: seq<Octet>,
                                           count: seq<Octet>, elements: seq<WElement>)
    requires Legal(WAnnotation(typeIdx, count, elements))
    ensures At(d, p, Bytes(WAnnotation(typeIdx, count, elements)))
         == (At(d, p, [0x1d]) && At(d, p + 1, typeIdx) && At(d, p + 1 + |typeIdx|, count)
             && At(d, p + 1 + |typeIdx| + |count|, ElementBytes(elements)))
  {
    AnnotationForm(typeIdx, count, elements);
    FourParts(d, p, [0x1d], typeIdx, count, ElementBytes(elements));
  }

  lemma AnnotationRead(d: seq<Octet>, p: nat, q: nat, r: nat, end: nat, typeIdx: nat, elements: seq<Element>, n: nat)
    requires p < |d| && d[p] == 0x1d && p + 1 <= q <= r <= |d|
    requires ReadUleb(d, p + 1) == Done(typeIdx, q) && ReadUleb(d, q) == Done(n, r)
    requires DecodeElements(d, r, n) == Done(elements, end)
    ensures Decode(d, p) == Done(Annotation(typeIdx, elements), end)
  {
    ContainerHead(d, p);
    AnnotationBy(d, p + 1, q, r, end, typeIdx, elements, n);
  }

  lemma CountRead(d: seq<Octet>, q: nat, count: seq<Octet>, n: nat)
    requires Denotes(count, n) && At(d, q, count)
    ensures q <= q + |count| <= |d| && ReadUleb(d, q) == Done(n, q + |count|)
  {
    UlebAt(d, q, count);
  }

  lemma {:induction false} AnnotationDone(d: seq<Octet>, p: nat, typeIdx: seq<Octet>,
                                          count: seq<Octet>, elements: seq<WElement>)
    requires Legal(WAnnotation(typeIdx, count, elements))
    requires At(d, p, [0x1d]) && At(d, p + 1, typeIdx) && At(d, p + 1 + |typeIdx|, count)
    requires var q := p + 1 + |typeIdx| + |count|;
      q <= |d| && DecodeElements(d, q, |elements|)
               == Done(ElementMeanings(elements), q + |ElementBytes(elements)|)
    ensures var w := WAnnotation(typeIdx, count, elements);
      Decode(d, p) == Done(Meaning(w), p + |Bytes(w)|)
  {
    var q, r := p + 1 + |typeIdx|, p + 1 + |typeIdx| + |count|;
    AnnotationForm(typeIdx, count, elements);
    UlebAt(d, p + 1, typeIdx);
    CountRead(d, q, count, |elements|);
    AnnotationRead(d, p, q, r, r + |ElementBytes(elements)|, Groups(typeIdx) % TWO32,
                   ElementMeanings(elements), |elements|);
  }

  lemma AnnotationBy(d: seq<Octet>, p: nat, q: nat, r: nat, end: nat,
                     typeIdx: nat, elements: seq<Element>, n: nat)
    requires p <= q <= r <= |d|
    requires ReadUleb(d, p) == Done(typeIdx, q) && ReadUleb(d, q) == Done(n, r)
    requires DecodeElements(d, r, n) == Done(elements, end)
    ensures DecodeAnnotation(d, p) == Done(Annotation(typeIdx, elements), end)
  {
  }

  lemma ElementsBy(d: seq<Octet>, p: nat, q: nat, r: nat, n: nat,
                   name: nat, v: Value)
    requires n > 0 && p <= q <= r <= |d|
    requires ReadUleb(d, p) == Done(name, q) && Decode(d, q) == Done(v, r)
    ensures DecodeElements(d, p, n) == Prepend([Element(name, v)], DecodeElements(d, r, n - 1))
  {
  }

  lemma AnnotationParts(d: seq<Octet>, p: nat)
    requires p <= |d| && DecodeAnnotation(d, p).Done?
    ensures var t := ReadUleb(d, p);
      t.Done? && var n := ReadUleb(d, t.next);
      n.Done? && DecodeElements(d, n.next, n.value).Done?
  {
  }

  lemma ContainerHead(d: seq<Octet>, p: nat)
    requires p < |d|
    ensures d[p] == 0x1c ==> Decode(d, p) == DecodeArray(d, p + 1)
    ensures d[p] == 0x1d ==> Decode(d, p) == DecodeAnnotation(d, p + 1)
  {
  }

  lemma HeaderByte(k: Kind, n: nat)
    requires 1 <= n <= Width(k)
    ensures ((n - 1) * 32 + Code(k)) % 32 == Code(k) && ((n - 1) * 32 + Code(k)) / 32 == n - 1
    ensures KindOf(Code(k)) == Some(k)
  {
  }

  lemma ElementParts(d: seq<Octet>, p: nat, name: seq<Octet>, value: seq<Octet>, rest: seq<Octet>)
    ensures At(d, p, name + (value + rest))
         == (At(d, p, name) && At(d, p + |name|, value) && At(d, p + |name| + |value|, rest))
  {
    AtParts(d, p, name, value + rest);
    AtParts(d, p + |name|, value, rest);
  }

  lemma {:induction false} DecodeLegalItems(d: seq<Octet>, p: nat, ws: seq<Wire>)
    requires LegalItems(ws) && At(d, p, ItemBytes(ws))
    ensures DecodeItems(d, p, |ws|) == Done(ItemMeanings(ws), p + |ItemBytes(ws)|)
    decreases ws
  {
    if ws != [] {
      AtParts(d, p, Bytes(ws[0]), ItemBytes(ws[1..]));
      DecodeLegal(d, p, ws[0]);
      DecodeLegalItems(d, p + |Bytes(ws[0])|, ws[1..]);
    }
  }

  lemma OneElement(d: seq<Octet>, p: nat, name: seq<Octet>, v: Value, next: nat, n: nat)
    requires n > 0 && IsLeb(name) && At(d, p, name) && p + |name| <= next <= |d|
    requires Decode(d, p + |name|) == Done(v, next)
    ensures DecodeElements(d, p, n)
         == Prepend([Element(Groups(name) % TWO32, v)], DecodeElements(d, next, n - 1))
  {
    UlebAt(d, p, name);
    ElementsBy(d, p, p + |name|, next, n, Groups(name) % TWO32, v);
  }

  lemma ElementsForm(ws: seq<WElement>)
    requires ws != [] && LegalElements(ws)
    ensures IsLeb(ws[0].name) && Legal(ws[0].value) && LegalElements(ws[1..])
    ensures ElementBytes(ws) == ws[0].name + (Bytes(ws[0].value) + ElementBytes(ws[1..]))
    ensures |ElementBytes(ws)| == |ws[0].name| + |Bytes(ws[0].value)| + |ElementBytes(ws[1..])|
    ensures ElementMeanings(ws)
         == [Element(Groups(ws[0].name) % TWO32, Meaning(ws[0].value))] + ElementMeanings(ws[1..])
  {
  }

  lemma ElementsAt(d: seq<Octet>, p: nat, ws: seq<WElement>)
    requires ws != [] && LegalElements(ws) && At(d, p, ElementBytes(ws))
    ensures var name, value := ws[0].name, ws[0].value;
      && At(d, p, name) && Legal(value) && At(d, p + |name|, Bytes(value)) && LegalElements(ws[1..])
      && At(d, p + |name| + |Bytes(value)|, ElementBytes(ws[1..]))
  {
    ElementsForm(ws);
    ElementParts(d, p, ws[0].name, Bytes(ws[0].value), ElementBytes(ws[1..]));
  }

  lemma ElementsDone(d: seq<Octet>, p: nat, ws: seq<WElement>, next: nat)
    requires ws != [] && LegalElements(ws) && p <= |d| && next <= |d|
    requires next == p + |ws[0].name| + |Bytes(ws[0].value)|
    requires At(d, p, ws[0].name) && Decode(d, p + |ws[0].name|) == Done(Meaning(ws[0].value), next)
    requires DecodeElements(d, next, |ws| - 1) == Done(ElementMeanings(ws[1..]), next + |ElementBytes(ws[1..])|)
    ensures DecodeElements(d, p, |ws|) == Done(ElementMeanings(ws), p + |ElementBytes(ws)|)
  {
    ElementsForm(ws);
    OneElement(d, p, ws[0].name, Meaning(ws[0].value), next, |ws|);
  }

  lemma {:induction false} DecodeLegalElements(d: seq<Octet>, p: nat, ws: seq<WElement>)
    requires LegalElements(ws) && At(d, p, ElementBytes(ws))
    ensures DecodeElements(d, p, |ws|) == Done(ElementMeanings(ws), p + |ElementBytes(ws)|)
    decreases ws
  {
    if ws != [] {
      var w := ws[0];
      var q := p + |w.name|;
      var next := q + |Bytes(w.value)|;
      ElementsAt(d, p, ws);
      DecodeLegal(d, q, w.value);
      DecodeLegalElements(d, next, ws[1..]);
      ElementsDone(d, p, ws, next);
    }
  }

  // ---- and accepts nothing else ----

  /** Whatever decodes is a legal encoding of the decoded value: `w` is its syntax tree. */
  lemma DecodedIsLegal(d: seq<Octet>, p: nat) returns (w: Wire)
    requires p <= |d| && Decode(d, p).Done?
    ensures Legal(w) && At(d, p, Bytes(w))
    ensures Decode(d, p) == Done(Meaning(w), p + |Bytes(w)|)
    decreases |d| - p, 0
  {
    var code, arg, q := d[p] % 32, d[p] / 32, p + 1;
    if KindOf(code).Some? {
      w := NumOf(d, p);
    } else if code == 0x1c {
      w := ArrayOf(d, p);
    } else if code == 0x1d {
      w := AnnotationOf(d, p);
    } else if code == 0x1e {
      w := WNull;
    } else {
      w := WBool(arg != 0);
    }
  }

  lemma ArrayOf(d: seq<Octet>, p: nat) returns (w: Wire)
    requires p < |d| && d[p] == 0x1c && Decode(d, p).Done?
    ensures Legal(w) && At(d, p, Bytes(w))
    ensures Decode(d, p) == Done(Meaning(w), p + |Bytes(w)|)
    decreases |d| - p - 1, |d| + 2
  {
    ContainerHead(d, p);
    var count, n := LebOf(d, p + 1);
    var items := DecodedItems(d, p + 1 + |count|, n);
    w := WArray(count, items);
    ArrayBytes(d, p, count, items);
    ArrayDone(d, p, count, items);
  }

  lemma AnnotationHead(d: seq<Octet>, p: nat) returns (typeIdx: seq<Octet>, count: seq<Octet>, n: nat)
    requires p < |d| && d[p] == 0x1d && Decode(d, p).Done?
    ensures IsLeb(typeIdx) && Denotes(count, n) && At(d, p + 1, typeIdx) && At(d, p + 1 + |typeIdx|, count)
    ensures p + 1 + |typeIdx| + |count| <= |d| && typeIdx != []
    ensures DecodeElements(d, p + 1 + |typeIdx| + |count|, n).Done?
  {
    ContainerHead(d, p);
    AnnotationParts(d, p + 1);
    var t;
    typeIdx, t := LebOf(d, p + 1);
    count, n := LebOf(d, p + 1 + |typeIdx|);
  }

  lemma AnnotationOf(d: seq<Octet>, p: nat) returns (w: Wire)
    requires p < |d| && d[p] == 0x1d && Decode(d, p).Done?
    ensures Legal(w) && At(d, p, Bytes(w))
    ensures Decode(d, p) == Done(Meaning(w), p + |Bytes(w)|)
    decreases |d| - p - 1, |d| + 2
  {
    var typeIdx, count, n := AnnotationHead(d, p);
    var elements := DecodedElements(d, p + 1 + |typeIdx| + |count|, n);
    AnnotationBytes(d, p, typeIdx, count, elements);
    AnnotationDone(d, p, typeIdx, count, elements);
    w := WAnnotation(typeIdx, count, elements);
  }

  lemma NumOf(d: seq<Octet>, p: nat) returns (w: Wire)
    requires p < |d| && KindOf(d[p] % 32).Some? && Decode(d, p).Done?
    ensures Legal(w) && At(d, p, Bytes(w))
    ensures Decode(d, p) == Done(Meaning(w), p + |Bytes(w)|)
  {
    var k, n := KindOf(d[p] % 32).value, d[p] / 32 + 1;
    var payload := d[p + 1..p + 1 + n];
    w := WNum(k, payload);
    CodeOf(d[p] % 32);
    AtSlice(d, p + 1, payload);
    NumBytes(d, p, k, payload);
    NumDone(d, p, k, payload);
  }

  lemma CodeOf(code: nat)
    requires KindOf(code).Some?
    ensures Code(KindOf(code).value) == code
  {
  }

  lemma LebOf(d: seq<Octet>, p: nat) returns (bs: seq<Octet>, v: nat)
    requires p <= |d| && ReadUleb(d, p).Done?
    ensures Denotes(bs, v) && At(d, p, bs) && bs != []
    ensures ReadUleb(d, p) == Done(v, p + |bs|)
  {
    var r := ReadUleb(d, p);
    UlebExact(d, p, r.value, r.next);
    bs, v := d[p..r.next], r.value;
    AtSlice(d, p, bs);
  }

  lemma {:induction false} DecodedItems(d: seq<Octet>, p: nat, n: nat) returns (ws: seq<Wire>)
    requires p <= |d| && DecodeItems(d, p, n).Done?
    ensures |ws| == n && LegalItems(ws) && At(d, p, ItemBytes(ws))
    ensures DecodeItems(d, p, n) == Done(ItemMeanings(ws), p + |ItemBytes(ws)|)
    decreases |d| - p, n + 1
  {
    if n == 0 {
      ws := [];
    } else {
      var w := DecodedIsLegal(d, p);
      var rest := DecodedItems(d, p + |Bytes(w)|, n - 1);
      ws := [w] + rest;
      Parts([w], rest);
      AtParts(d, p, Bytes(w), ItemBytes(rest));
    }
  }

  lemma {:induction false} DecodedElements(d: seq<Octet>, p: nat, n: nat) returns (ws: seq<WElement>)
    requires p <= |d| && DecodeElements(d, p, n).Done?
    ensures |ws| == n && LegalElements(ws) && At(d, p, ElementBytes(ws))
    ensures DecodeElements(d, p, n) == Done(ElementMeanings(ws), p + |ElementBytes(ws)|)
    decreases |d| - p, n + 1
  {
    if n == 0 {
      ws := [];
    } else {
      var name, v := LebOf(d, p);
      var w := DecodedIsLegal(d, p + |name|);
      var rest := DecodedElements(d, p + |name| + |Bytes(w)|, n - 1);
      ws := [WElement(name, w)] + rest;
      Parts([WElement(name, w)], rest);
      ElementParts(d, p, name, Bytes(w), ElementBytes(rest));
    }
  }

  // ---- every value has an encoding ----

  /** The values the Rust type can hold. */
  predicate Holds(k: Kind, x: int) {
    if IsSigned(k) then -Half(k) <= x < Half(k) else 0 <= x < 2 * Half(k)
  }

  function Half(k: Kind): int {
    match Width(k)
    case 1 => 0x80
    case 2 => 0x8000
    case 4 => 0x8000_0000
    case _ => 0x8000_0000_0000_0000
  }

  predicate WellFormed(v: Value)
    decreases v
  {
    match v
    case Num(k, x) => Holds(k, x)
    case Array(items) => |items| < TWO32 && (forall i :: 0 <= i < |items| ==> WellFormed(items[i]))
    case Annotation(t, elements) => t < TWO32 && |elements| < TWO32
      && forall i :: 0 <= i < |elements| ==> elements[i].name < TWO32 && WellFormed(elements[i].value)
    case _ => true
  }

  /** The widest encoding of a value. */
  function Encode(v: Value): Wire
    requires WellFormed(v)
    decreases v
  {
    match v
    case Num(k, x) => WNum(k, LeBytes(if x < 0 then x + 2 * Half(k) else x, Width(k)))
    case Array(items) => WArray(EncodeUleb(|items|), EncodeItems(items))
    case Annotation(t, elements) =>
      WAnnotation(EncodeUleb(t), EncodeUleb(|elements|), EncodeElements(elements))
    case Null => WNull
    case Bool(b) => WBool(b)
  }

  function EncodeItems(vs: seq<Value>): (r: seq<Wire>)
    requires forall i :: 0 <= i < |vs| ==> WellFormed(vs[i])
    ensures |r| == |vs|
    decreases vs
  {
    if vs == [] then [] else [Encode(vs[0])] + EncodeItems(vs[1..])
  }

  function EncodeElements(vs: seq<Element>): (r: seq<WElement>)
    requires forall i :: 0 <= i < |vs| ==> vs[i].name < TWO32 && WellFormed(vs[i].value)
    ensures |r| == |vs|
    decreases vs
  {
    if vs == [] then []
    else
      var e := vs[0];
      assert e.value < e;
      [WElement(EncodeUleb(e.name), Encode(e.value))] + EncodeElements(vs[1..])
  }

  lemma EncodeUlebDenotes(v: nat)
    requires v < TWO32
    ensures Denotes(EncodeUleb(v), v)
  {
    FivePow128();
    EncodeUlebLeb(v, 5);
  }

  lemma NumRoundTrip(k: Kind, x: int)
    requires Holds(k, x)
    ensures var v := if x < 0 then x + 2 * Half(k) else x;
      v < Pow256(Width(k)) && NumValue(k, v, Width(k)) == x
  {
    assert Pow256(1) == 256 && Pow256(2) == 65536 && Pow256(4) == TWO32;
    assert Pow256(8) == 0x1_0000_0000_0000_0000;
  }

  lemma EncodeLegal(v: Value)
    requires WellFormed(v)
    ensures Legal(Encode(v)) && Meaning(Encode(v)) == v
    decreases v
  {
    match v {
      case Num(k, x) =>
        NumRoundTrip(k, x);
        LeRoundTrip(if x < 0 then x + 2 * Half(k) else x, Width(k));
      case Array(items) =>
        EncodeUlebDenotes(|items|);
        EncodeItemsLegal(items);
      case Annotation(t, elements) =>
        EncodeUlebDenotes(t);
        EncodeUlebDenotes(|elements|);
        EncodeElementsLegal(elements);
      case Null =>
      case Bool(b) =>
    }
  }

  lemma {:induction false} EncodeItemsLegal(vs: seq<Value>)
    requires forall i :: 0 <= i < |vs| ==> WellFormed(vs[i])
    ensures LegalItems(EncodeItems(vs)) && ItemMeanings(EncodeItems(vs)) == vs
    decreases vs
  {
    if vs != [] {
      EncodeLegal(vs[0]);
      EncodeItemsLegal(vs[1..]);
      Parts([Encode(vs[0])], EncodeItems(vs[1..]));
    }
  }

  lemma {:induction false} EncodeElementsLegal(vs: seq<Element>)
    requires forall i :: 0 <= i < |vs| ==> vs[i].name < TWO32 && WellFormed(vs[i].value)
    ensures LegalElements(EncodeElements(vs)) && ElementMeanings(EncodeElements(vs)) == vs
    decreases vs
  {
    if vs != [] {
      var e := vs[0];
      assert e.value < e;
      EncodeUlebDenotes(e.name);
      EncodeLegal(e.value);
      EncodeElementsLegal(vs[1..]);
      Parts([WElement(EncodeUleb(vs[0].name), Encode(vs[0].value))], EncodeElements(vs[1..]));
    }
  }

  /** Decoding inverts encoding for every value tree, whatever surrounds the bytes. */
  lemma RoundTrip(before: seq<Octet>, v: Value, after: seq<Octet>)
    requires WellFormed(v)
    ensures Legal(Encode(v))
    ensures var bs := Bytes(Encode(v));
      Decode(before + bs + after, |before|) == Done(v, |before| + |bs|)
  {
    EncodeLegal(v);
    var bs := Bytes(Encode(v));
    var d := before + bs + after;
    assert d[|before|..|before| + |bs|] == bs;
    AtSlice(d, |before|, bs);
    DecodeLegal(d, |before|, Encode(v));
  }

  // ---- the decoder over the cursor ----

  method DecodeValue(c: Cursor) returns (r: Result<Value, nat>)
    requires c.Valid()
    modifies c
    ensures c.Valid()
    ensures Outcome(r, c.pos) == Decode(c.data, old(c.pos))
    decreases |c.data| - c.pos, 0
  {
    var b := c.U8();
    if b.Err? {
      return Err(b.error);
    }
    var code, arg := b.value % 32, b.value / 32;
    var size := arg + 1;
    if KindOf(code).Some? {
      var k := KindOf(code).value;
      if arg >= Width(k) {
        return Err(c.pos - 1);
      }
      var v := c.Le(size);
      if v.Err? {
        return Err(v.error);
      }
      return Ok(Num(k, NumValue(k, v.value, size)));
    }
    if code == 0x1c && arg == 0 {
      var n := c.Uleb128();
      if n.Err? {
        return Err(n.error);
      }
      var items := ReadItems(c, n.value);
      return if items.Ok? then Ok(Array(items.value)) else Err(items.error);
    }
    if code == 0x1d && arg == 0 {
      var t := c.Uleb128();
      if t.Err? {
        return Err(t.error);
      }
      var n := c.Uleb128();
      if n.Err? {
        return Err(n.error);
      }
      var elements := ReadElements(c, n.value);
      return if elements.Ok? then Ok(Annotation(t.value, elements.value)) else Err(elements.error);
    }
    if code == 0x1e && arg == 0 {
      return Ok(Null);
    }
    if code == 0x1f && arg <= 1 {
      return Ok(Bool(arg != 0));
    }
    r := Err(c.pos - 1);
  }

  /** The loop over the items of an array. */
  method ReadItems(c: Cursor, n: nat) returns (r: Result<seq<Value>, nat>)
    requires c.Valid()
    modifies c
    ensures c.Valid()
    ensures Outcome(r, c.pos) == DecodeItems(c.data, old(c.pos), n)
    decreases |c.data| - c.pos, 1
  {
    var items: seq<Value> := [];
    PrependNothing(DecodeItems(c.data, c.pos, n));
    for i := 0 to n
      invariant c.Valid() && old(c.pos) <= c.pos
      invariant DecodeItems(c.data, old(c.pos), n)
             == Prepend(items, DecodeItems(c.data, c.pos, n - i))
    {
      var v := DecodeValue(c);
      if v.Err? {
        return Err(v.error);
      }
      PrependTwice(items, [v.value], DecodeItems(c.data, c.pos, n - i - 1));
      items := items + [v.value];
    }
    Empty(items);
    r := Ok(items);
  }

  /** The loop over the elements of an annotation. */
  method ReadElements(c: Cursor, n: nat) returns (r: Result<seq<Element>, nat>)
    requires c.Valid()
    modifies c
    ensures c.Valid()
    ensures Outcome(r, c.pos) == DecodeElements(c.data, old(c.pos), n)
    decreases |c.data| - c.pos, 1
  {
    var elements: seq<Element> := [];
    PrependNothing(DecodeElements(c.data, c.pos, n));
    for i := 0 to n
      invariant c.Valid() && old(c.pos) <= c.pos
      invariant DecodeElements(c.data, old(c.pos), n)
             == Prepend(elements, DecodeElements(c.data, c.pos, n - i))
    {
      ghost var p := c.pos;
      var name := c.Uleb128();
      if name.Err? {
        return Err(name.error);
      }
      ghost var q := c.pos;
      var v := DecodeValue(c);
      if v.Err? {
        return Err(v.error);
      }
      ElementsBy(c.data, p, q, c.pos, n - i, name.value, v.value);
      PrependTwice(elements, [Element(name.value, v.value)], DecodeElements(c.data, c.pos, n - i - 1));
      elements := elements + [Element(name.value, v.value)];
    }
    Empty(elements);
    r := Ok(elements);
  }

  lemma PrependNothing<T>(r: Parsed<seq<T>>)
    ensures Prepend([], r) == r
  {
    if r.Done? {
      Empty(r.value);
    }
  }

  lemma PrependTwice<T>(a: seq<T>, b: seq<T>, r: Parsed<seq<T>>)
    ensures Prepend(a, Prepend(b, r)) == Prepend(a + b, r)
  {
    if r.Done? {
      Assoc(a, b, r.value);
    }
  }
}
