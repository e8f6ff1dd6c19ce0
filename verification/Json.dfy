/** The JSON natives: a tree becomes a graph of heap objects and is read back from it. */
module Json {
  import opened Wrappers
  import opened Seqs
  import opened Values
  import opened Heap
  import opened Collector

  /** `serde_json::Value` without floating-point numbers; object pairs keep their order. */
  datatype Json =
    | JNull
    | JBool(b: bool)
    | JNum(i: I64)
    | JStr(s: string)
    | JArr(items: seq<Json>)
    | JObj(pairs: seq<Member>)

  datatype Member = Member(key: string, value: Json)

  const BOOLEAN := "Ljava/lang/Boolean;"
  const ARRAY := "Lorg/json/JSONArray;"
  const OBJECT := "Lorg/json/JSONObject;"
  const NPE := "Ljava/lang/NullPointerException;"

  // ---- what it means for a heap graph to hold a tree ----

  function NumValue(i: I64): JValue {
    if -0x8000_0000 <= i < 0x8000_0000 then Int(i) else Long(i)
  }

  ghost predicate Represents(h: State, v: JValue, j: Json)
    decreases j
  {
    match j
    case JNull => v == Null
    case JBool(b) => v.Obj? && h.Live(v.id) && h.objects[v.id].native == Some(BoolBox(b))
    case JNum(i) => v == NumValue(i)
    case JStr(s) => v.Obj? && h.Live(v.id) && h.objects[v.id].native == Some(Str(s))
    case JArr(items) =>
      && v.Obj? && h.Live(v.id)
      && h.objects[v.id].native.Some?
      && h.objects[v.id].native.value.JsonArr?
      && RepresentAll(h, h.objects[v.id].native.value.items, items)
    case JObj(pairs) =>
      && v.Obj? && h.Live(v.id)
      && h.objects[v.id].native.Some?
      && h.objects[v.id].native.value.JsonObj?
      && RepresentPairs(h, h.objects[v.id].native.value.pairs, pairs)
  }

  ghost predicate RepresentAll(h: State, vs: seq<JValue>, js: seq<Json>)
    decreases js
  {
    && |vs| == |js|
    && (js == [] ||
        (RepresentAll(h, vs[..|vs| - 1], js[..|js| - 1]) && Represents(h, vs[|vs| - 1], js[|js| - 1])))
  }

  ghost predicate RepresentPairs(h: State, ps: seq<(string, JValue)>, js: seq<Member>)
    decreases js
  {
    && |ps| == |js|
    && (js == [] ||
        (RepresentPairs(h, ps[..|ps| - 1], js[..|js| - 1]) && RepresentPair(h, ps[|ps| - 1], js[|js| - 1])))
  }

  ghost predicate RepresentPair(h: State, p: (string, JValue), j: Member)
    decreases j
  {
    p.0 == j.key && Represents(h, p.1, j.value)
  }

  lemma RepresentsKept(h: State, g: State, v: JValue, j: Json)
    requires Extends(h, g) && Represents(h, v, j)
    ensures Represents(g, v, j)
    decreases j
  {
    match j {
      case JArr(items) => RepresentAllKept(h, g, h.objects[v.id].native.value.items, items);
      case JObj(pairs) => RepresentPairsKept(h, g, h.objects[v.id].native.value.pairs, pairs);
      case _ =>
    }
  }

  lemma {:induction false} RepresentAllKept(h: State, g: State, vs: seq<JValue>, js: seq<Json>)
    requires Extends(h, g) && RepresentAll(h, vs, js)
    ensures RepresentAll(g, vs, js)
    decreases js
  {
    if js != [] {
      RepresentAllKept(h, g, vs[..|vs| - 1], js[..|js| - 1]);
      RepresentsKept(h, g, vs[|vs| - 1], js[|js| - 1]);
    }
  }

  lemma {:induction false} RepresentPairsKept(h: State, g: State, ps: seq<(string, JValue)>,
                                              js: seq<Member>)
    requires Extends(h, g) && RepresentPairs(h, ps, js)
    ensures RepresentPairs(g, ps, js)
    decreases js
  {
    if js != [] {
      var m := js[|js| - 1];
      assert m.value < m;
      RepresentPairsKept(h, g, ps[..|ps| - 1], js[..|js| - 1]);
      RepresentsKept(h, g, ps[|ps| - 1].1, m.value);
    }
  }

  // ---- building ----

  /** The class at which building stops: the members come first, in order, then the class of
      the value itself. */
  function Missing(classes: map<string, nat>, j: Json): Option<string>
    decreases j
  {
    match j
    case JArr(items) =>
      var m := MissingAll(classes, items);
      if m.Some? || ARRAY in classes then m else Some(ARRAY)
    case JObj(pairs) =>
      var m := MissingPairs(classes, pairs);
      if m.Some? || OBJECT in classes then m else Some(OBJECT)
    case _ => None
  }

  function MissingAll(classes: map<string, nat>, js: seq<Json>): Option<string>
    decreases js
  {
    if js == [] then None
    else
      var before := MissingAll(classes, js[..|js| - 1]);
      if before.Some? then before else Missing(classes, js[|js| - 1])
  }

  function MissingPairs(classes: map<string, nat>, ms: seq<Member>): Option<string>
    decreases ms
  {
    if ms == [] then None
    else
      var m := ms[|ms| - 1];
      assert m.value < m;
      var before := MissingPairs(classes, ms[..|ms| - 1]);
      if before.Some? then before else Missing(classes, m.value)
  }

  lemma {:induction false} MissingStops(classes: map<string, nat>, js: seq<Json>, k: nat)
    requires k <= |js| && MissingAll(classes, js[..k]).Some?
    ensures MissingAll(classes, js) == MissingAll(classes, js[..k])
    decreases |js| - k
  {
    if k == |js| {
      assert js[..k] == js;
    } else {
      assert js[..k + 1][..k] == js[..k];
      MissingStops(classes, js, k + 1);
    }
  }

  lemma {:induction false} MissingStopsPairs(classes: map<string, nat>, ms: seq<Member>, k: nat)
    requires k <= |ms| && MissingPairs(classes, ms[..k]).Some?
    ensures MissingPairs(classes, ms) == MissingPairs(classes, ms[..k])
    decreases |ms| - k
  {
    if k == |ms| {
      assert ms[..k] == ms;
    } else {
      assert ms[..k + 1][..k] == ms[..k];
      MissingStopsPairs(classes, ms, k + 1);
    }
  }

  /** The tree that is built: without the boxed class, every boolean turns into null. */
  function Built(classes: map<string, nat>, j: Json): (r: Json)
    ensures BOOLEAN in classes ==> r == j
    decreases j
  {
    match j
    case JBool(_) => if BOOLEAN in classes then j else JNull
    case JArr(items) => JArr(BuiltAll(classes, items))
    case JObj(pairs) => JObj(BuiltPairs(classes, pairs))
    case _ => j
  }

  function BuiltAll(classes: map<string, nat>, js: seq<Json>): (r: seq<Json>)
    ensures |r| == |js|
    ensures BOOLEAN in classes ==> r == js
    decreases js
  {
    if js == [] then []
    else
      assert js == js[..|js| - 1] + [js[|js| - 1]];
      BuiltAll(classes, js[..|js| - 1]) + [Built(classes, js[|js| - 1])]
  }

  function BuiltPairs(classes: map<string, nat>, ms: seq<Member>): (r: seq<Member>)
    ensures |r| == |ms|
    ensures forall i :: 0 <= i < |ms| ==> r[i].key == ms[i].key
    ensures BOOLEAN in classes ==> r == ms
    decreases ms
  {
    if ms == [] then []
    else
      var m := ms[|ms| - 1];
      assert m.value < m;
      assert ms == ms[..|ms| - 1] + [m];
      BuiltPairs(classes, ms[..|ms| - 1]) + [Member(m.key, Built(classes, m.value))]
  }

  /** The native helper `alloc`: an unresolved class is an error. */
  method Alloc(vm: Vm, desc: string, native: Native) returns (r: Result<JValue, string>)
    requires vm.Sound()
    modifies vm.arena
    ensures vm.Sound() && Extends(old(vm.arena.View()), vm.arena.View())
    ensures r.Ok? <==> desc in vm.classByDesc
    ensures r.Ok? ==> r.value.Obj? && vm.arena.View().Live(r.value.id)
    ensures r.Ok? ==> vm.arena.objects[r.value.id] == JObject(vm.classByDesc[desc], [], Some(native))
    ensures r.Err? ==> r.error == desc
  {
    if desc !in vm.classByDesc {
      return Err(desc);
    }
    var id := vm.AllocObject(vm.classByDesc[desc], native);
    r := Ok(Obj(id));
  }

  /** What is built for a tree at its root: a number within 32 bits is an int, any other a long;
      containers and booleans are objects of the classes of their kind, and a boolean without its
      class is null. */
  ghost predicate Made(classes: map<string, nat>, h: State, v: JValue, j: Json) {
    match j
    case JNull => v == Null
    case JBool(b) =>
      if "Ljava/lang/Boolean;" in classes
      then v.Obj? && h.Live(v.id)
           && h.objects[v.id] == JObject(classes["Ljava/lang/Boolean;"], [], Some(BoolBox(b)))
      else v == Null
    case JNum(i) => if -2147483648 <= i <= 2147483647 then v == Int(i) else v == Long(i)
    case JStr(s) => v.Obj? && h.Live(v.id) && h.objects[v.id].native == Some(Str(s))
    case JArr(items) =>
      && v.Obj? && h.Live(v.id) && "Lorg/json/JSONArray;" in classes
      && h.objects[v.id].native.Some? && h.objects[v.id].native.value.JsonArr?
      && h.objects[v.id].cls == classes["Lorg/json/JSONArray;"]
      && |h.objects[v.id].native.value.items| == |items|
    case JObj(pairs) =>
      && v.Obj? && h.Live(v.id) && "Lorg/json/JSONObject;" in classes
      && h.objects[v.id].native.Some? && h.objects[v.id].native.value.JsonObj?
      && h.objects[v.id].cls == classes["Lorg/json/JSONObject;"]
      && |h.objects[v.id].native.value.pairs| == |pairs|
  }

  /** Fails exactly when a container class is missing; otherwise the graph is the tree, but
      for booleans that have no class. */
  method JsonToJvalue(vm: Vm, j: Json) returns (r: Result<JValue, string>)
    requires vm.Sound()
    modifies vm`runtimeStrings, vm.arena
    ensures vm.Sound() && Extends(old(vm.arena.View()), vm.arena.View())
    ensures match Missing(vm.classByDesc, j)
      case Some(desc) => r == Err(desc)
      case None => r.Ok? && Represents(vm.arena.View(), r.value, Built(vm.classByDesc, j))
    ensures r.Ok? ==> Made(vm.classByDesc, vm.arena.View(), r.value, j)
    decreases j
  {
    match j {
      case JNull => r := Ok(Null);
      case JBool(b) =>
        var boxed := Alloc(vm, BOOLEAN, BoolBox(b));
        r := Ok(if boxed.Ok? then boxed.value else Null);
      case JNum(i) =>
        if -0x8000_0000 <= i < 0x8000_0000 {
          r := Ok(Int(i));
        } else {
          r := Ok(Long(i));
        }
      case JStr(s) =>
        var v := vm.AllocString(s);
        assert s in vm.runtimeStrings;
        r := Ok(v);
      case JArr(items) =>
        var out := ItemsToJvalue(vm, items);
        if out.Err? {
          return Err(out.error);
        }
        ghost var before := vm.arena.View();
        r := Alloc(vm, ARRAY, JsonArr(out.value));
        RepresentAllKept(before, vm.arena.View(), out.value, BuiltAll(vm.classByDesc, items));
      case JObj(pairs) =>
        var out := PairsToJvalue(vm, pairs);
        if out.Err? {
          return Err(out.error);
        }
        ghost var before := vm.arena.View();
        r := Alloc(vm, OBJECT, JsonObj(out.value));
        RepresentPairsKept(before, vm.arena.View(), out.value, BuiltPairs(vm.classByDesc, pairs));
    }
  }

  method ItemsToJvalue(vm: Vm, items: seq<Json>) returns (r: Result<seq<JValue>, string>)
    requires vm.Sound()
    modifies vm`runtimeStrings, vm.arena
    ensures vm.Sound() && Extends(old(vm.arena.View()), vm.arena.View())
    ensures match MissingAll(vm.classByDesc, items)
      case Some(desc) => r == Err(desc)
      case None => r.Ok? && RepresentAll(vm.arena.View(), r.value, BuiltAll(vm.classByDesc, items))
    decreases items
  {
    var out: seq<JValue> := [];
    for k := 0 to |items|
      invariant vm.Sound() && Extends(old(vm.arena.View()), vm.arena.View())
      invariant MissingAll(vm.classByDesc, items[..k]).None?
      invariant RepresentAll(vm.arena.View(), out, BuiltAll(vm.classByDesc, items[..k]))
    {
      ghost var before := vm.arena.View();
      assert items[..k + 1][..k] == items[..k];
      var v := JsonToJvalue(vm, items[k]);
      if v.Err? {
        MissingStops(vm.classByDesc, items, k + 1);
        return Err(v.error);
      }
      RepresentAllKept(before, vm.arena.View(), out, BuiltAll(vm.classByDesc, items[..k]));
      RepresentSnoc(vm.arena.View(), out, BuiltAll(vm.classByDesc, items[..k]), v.value,
                    Built(vm.classByDesc, items[k]));
      out := out + [v.value];
    }
    assert items[..|items|] == items;
    r := Ok(out);
  }

  method PairsToJvalue(vm: Vm, pairs: seq<Member>) returns (r: Result<seq<(string, JValue)>, string>)
    requires vm.Sound()
    modifies vm`runtimeStrings, vm.arena
    ensures vm.Sound() && Extends(old(vm.arena.View()), vm.arena.View())
    ensures match MissingPairs(vm.classByDesc, pairs)
      case Some(desc) => r == Err(desc)
      case None => r.Ok? && RepresentPairs(vm.arena.View(), r.value, BuiltPairs(vm.classByDesc, pairs))
    decreases pairs
  {
    var out: seq<(string, JValue)> := [];
    for k := 0 to |pairs|
      invariant vm.Sound() && Extends(old(vm.arena.View()), vm.arena.View())
      invariant MissingPairs(vm.classByDesc, pairs[..k]).None?
      invariant RepresentPairs(vm.arena.View(), out, BuiltPairs(vm.classByDesc, pairs[..k]))
    {
      ghost var before := vm.arena.View();
      var p := pairs[k];
      assert p.value < p;
      assert pairs[..k + 1][..k] == pairs[..k];
      var v := JsonToJvalue(vm, p.value);
      if v.Err? {
        MissingStopsPairs(vm.classByDesc, pairs, k + 1);
        return Err(v.error);
      }
      RepresentPairsKept(before, vm.arena.View(), out, BuiltPairs(vm.classByDesc, pairs[..k]));
      RepresentSnocPair(vm.arena.View(), out, BuiltPairs(vm.classByDesc, pairs[..k]), (p.key, v.value),
                        Member(p.key, Built(vm.classByDesc, p.value)));
      out := out + [(p.key, v.value)];
    }
    assert pairs[..|pairs|] == pairs;
    r := Ok(out);
  }

  lemma RepresentSnoc(h: State, vs: seq<JValue>, js: seq<Json>, v: JValue, j: Json)
    requires RepresentAll(h, vs, js) && Represents(h, v, j)
    ensures RepresentAll(h, vs + [v], js + [j])
  {
    Parts(vs, [v]);
    Parts(js, [j]);
  }

  lemma RepresentSnocPair(h: State, ps: seq<(string, JValue)>, js: seq<Member>,
                          p: (string, JValue), j: Member)
    requires RepresentPairs(h, ps, js) && RepresentPair(h, p, j)
    ensures RepresentPairs(h, ps + [p], js + [j])
  {
    Parts(ps, [p]);
    Parts(js, [j]);
  }

  // ---- reading ----

  /** Insertion in the order-preserving map: a known key keeps its place. */
  function Insert(ms: seq<Member>, m: Member): seq<Member> {
    if ms == [] then [m]
    else if ms[0].key == m.key then [m] + ms[1..]
    else [ms[0]] + Insert(ms[1..], m)
  }

  /** The part of the heap that hangs off `v` is live and unfolds to a finite tree. */
  ghost predicate Unfolds(h: State, v: JValue, n: nat)
    decreases n, 1
  {
    v.Obj? ==>
      (n > 0 && h.Live(v.id)
       && match h.objects[v.id].native
          case Some(JsonArr(items)) => UnfoldsAll(h, items, n - 1)
          case Some(JsonObj(pairs)) => UnfoldsAll(h, PairValues(pairs), n - 1)
          case _ => true)
  }

  ghost predicate UnfoldsAll(h: State, vs: seq<JValue>, n: nat)
    decreases n, 2 + |vs|
  {
    forall k :: 0 <= k < |vs| ==> Unfolds(h, vs[k], n)
  }

  /** The tree a value stands for; none when something in it is not JSON. */
  function Read(h: State, v: JValue, n: nat): Option<Json>
    decreases n, 1, 0
  {
    match v
    case Null => Some(JNull)
    case Int(i) => Some(JNum(i))
    case Long(l) => Some(JNum(l))
    case Obj(id) =>
      if n == 0 || id >= |h.objects| then None
      else ReadNative(h, h.objects[id].native, n)
  }

  function ReadNative(h: State, native: Option<Native>, n: nat): Option<Json>
    requires n > 0
    decreases n, 0, 0
  {
    match native
    case Some(Str(s)) => Some(JStr(s))
    case Some(IntBox(i)) => Some(JNum(i))
    case Some(LongBox(l)) => Some(JNum(l))
    case Some(BoolBox(b)) => Some(JBool(b))
    case Some(JsonObj(pairs)) =>
      var ms := ReadPairs(h, pairs, n - 1);
      if ms.Some? then Some(JObj(ms.value)) else None
    case Some(JsonArr(items)) =>
      var js := ReadAll(h, items, n - 1);
      if js.Some? then Some(JArr(js.value)) else None
    case _ => None
  }

  function ReadAll(h: State, vs: seq<JValue>, n: nat): Option<seq<Json>>
    decreases n, 2, |vs|
  {
    if vs == [] then Some([])
    else
      var before := ReadAll(h, vs[..|vs| - 1], n);
      var last := Read(h, vs[|vs| - 1], n);
      if before.Some? && last.Some? then Some(before.value + [last.value]) else None
  }

  function ReadPairs(h: State, ps: seq<(string, JValue)>, n: nat): Option<seq<Member>>
    decreases n, 2, |ps|
  {
    if ps == [] then Some([])
    else
      var before := ReadPairs(h, ps[..|ps| - 1], n);
      var last := Read(h, ps[|ps| - 1].1, n);
      if before.Some? && last.Some?
      then Some(Insert(before.value, Member(ps[|ps| - 1].0, last.value)))
      else None
  }

  // ---- the round trip ----

  function Keys(ms: seq<Member>): set<string> {
    set k | 0 <= k < |ms| :: ms[k].key
  }

  /** No object of the tree has a key twice, as in every tree `serde_json` builds. */
  ghost predicate KeysDistinct(j: Json)
    decreases j
  {
    match j
    case JArr(items) => AllDistinct(items)
    case JObj(pairs) => DistinctPairs(pairs)
    case _ => true
  }

  ghost predicate AllDistinct(js: seq<Json>)
    decreases js
  {
    js == [] || (AllDistinct(js[..|js| - 1]) && KeysDistinct(js[|js| - 1]))
  }

  ghost predicate DistinctPairs(ms: seq<Member>)
    decreases ms
  {
    ms == [] ||
    (var m := ms[|ms| - 1];
     assert m.value < m;
     DistinctPairs(ms[..|ms| - 1]) && KeysDistinct(m.value) && m.key !in Keys(ms[..|ms| - 1]))
  }

  function Max(a: nat, b: nat): nat {
    if a < b then b else a
  }

  function Depth(j: Json): nat
    decreases j
  {
    match j
    case JArr(items) => 1 + DepthAll(items)
    case JObj(pairs) => 1 + DepthPairs(pairs)
    case _ => 1
  }

  function DepthAll(js: seq<Json>): nat
    decreases js
  {
    if js == [] then 0 else Max(DepthAll(js[..|js| - 1]), Depth(js[|js| - 1]))
  }

  function DepthPairs(ms: seq<Member>): nat
    decreases ms
  {
    if ms == [] then 0
    else
      var m := ms[|ms| - 1];
      assert m.value < m;
      Max(DepthPairs(ms[..|ms| - 1]), Depth(m.value))
  }

  lemma {:induction false} InsertNew(ms: seq<Member>, m: Member)
    requires m.key !in Keys(ms)
    ensures Insert(ms, m) == ms + [m]
  {
    if ms != [] {
      assert ms[0].key in Keys(ms);
      forall key | key in Keys(ms[1..])
        ensures key in Keys(ms)
      {
        var k :| 0 <= k < |ms| - 1 && ms[1..][k].key == key;
        assert ms[k + 1].key == key;
      }
      InsertNew(ms[1..], m);
      Assoc([ms[0]], ms[1..], [m]);
    }
  }

  /** A key that is there already keeps its first place and gets the new value. */
  lemma {:induction false} InsertKnown(ms: seq<Member>, m: Member, k: nat)
    requires k < |ms| && ms[k].key == m.key && forall i :: 0 <= i < k ==> ms[i].key != m.key
    ensures Insert(ms, m) == ms[k := m]
  {
    if k > 0 {
      assert ms[1..][k - 1] == ms[k];
      InsertKnown(ms[1..], m, k - 1);
      assert ms[k := m] == [ms[0]] + ms[1..][k - 1 := m];
    }
  }

  /** What single values are read as, at any depth but none: boxed numbers and strings as what
      they hold; every other object, and one that does not exist, is no JSON. */
  lemma LeavesRead(h: State, id: nat, n: nat)
    requires n > 0
    ensures Read(h, Null, n) == Some(JNull)
    ensures forall i: I32 :: Read(h, Int(i), n) == Some(JNum(i))
    ensures forall l: I64 :: Read(h, Long(l), n) == Some(JNum(l))
    ensures id >= |h.objects| ==> Read(h, Obj(id), n) == None
    ensures id < |h.objects| ==>
      match h.objects[id].native
      case Some(Str(s)) => Read(h, Obj(id), n) == Some(JStr(s))
      case Some(IntBox(i)) => Read(h, Obj(id), n) == Some(JNum(i))
      case Some(LongBox(l)) => Read(h, Obj(id), n) == Some(JNum(l))
      case Some(BoolBox(b)) => Read(h, Obj(id), n) == Some(JBool(b))
      case Some(JsonObj(_)) => Read(h, Obj(id), n).Some? ==> Read(h, Obj(id), n).value.JObj?
      case Some(JsonArr(_)) => Read(h, Obj(id), n).Some? ==> Read(h, Obj(id), n).value.JArr?
      case _ => Read(h, Obj(id), n) == None
  {
  }

  /** A graph that represents a tree is finite and live, and is read back as that tree:
      same values, same order of keys. */
  lemma ReadRepresented(h: State, v: JValue, j: Json, n: nat)
    requires Represents(h, v, j) && KeysDistinct(j) && Depth(j) <= n
    ensures Unfolds(h, v, n) && Read(h, v, n) == Some(j)
    decreases j
  {
    match j {
      case JArr(items) =>
        ReadAllRepresented(h, h.objects[v.id].native.value.items, items, n - 1);
        ReadArray(h, v.id, items, n - 1);
      case JObj(pairs) =>
        ReadPairsRepresented(h, h.objects[v.id].native.value.pairs, pairs, n - 1);
        ReadObject(h, v.id, pairs, n - 1);
      case _ =>
    }
  }

  lemma ReadArray(h: State, id: nat, js: seq<Json>, n: nat)
    requires h.Live(id) && h.objects[id].native.Some? && h.objects[id].native.value.JsonArr?
    requires UnfoldsAll(h, h.objects[id].native.value.items, n)
    requires ReadAll(h, h.objects[id].native.value.items, n) == Some(js)
    ensures Unfolds(h, Obj(id), n + 1) && Read(h, Obj(id), n + 1) == Some(JArr(js))
  {
  }

  lemma ReadObject(h: State, id: nat, ms: seq<Member>, n: nat)
    requires h.Live(id) && h.objects[id].native.Some? && h.objects[id].native.value.JsonObj?
    requires UnfoldsAll(h, PairValues(h.objects[id].native.value.pairs), n)
    requires ReadPairs(h, h.objects[id].native.value.pairs, n) == Some(ms)
    ensures Unfolds(h, Obj(id), n + 1) && Read(h, Obj(id), n + 1) == Some(JObj(ms))
  {
  }

  lemma {:induction false} ReadAllRepresented(h: State, vs: seq<JValue>, js: seq<Json>, n: nat)
    requires RepresentAll(h, vs, js) && AllDistinct(js) && DepthAll(js) <= n
    ensures UnfoldsAll(h, vs, n) && ReadAll(h, vs, n) == Some(js)
    decreases js
  {
    if js == [] {
      assert vs == [];
    } else {
      var k := |js| - 1;
      ReadAllRepresented(h, vs[..k], js[..k], n);
      ReadRepresented(h, vs[k], js[k], n);
      assert js == js[..k] + [js[k]];
      assert forall i :: 0 <= i < k ==> vs[..k][i] == vs[i];
    }
  }

  lemma {:induction false} ReadPairsRepresented(h: State, ps: seq<(string, JValue)>,
                                                js: seq<Member>, n: nat)
    requires RepresentPairs(h, ps, js) && DistinctPairs(js) && DepthPairs(js) <= n
    ensures UnfoldsAll(h, PairValues(ps), n) && ReadPairs(h, ps, n) == Some(js)
    decreases js
  {
    if js == [] {
      assert ps == [];
    } else {
      var k := |js| - 1;
      var m := js[k];
      assert m.value < m;
      ReadPairsRepresented(h, ps[..k], js[..k], n);
      ReadRepresented(h, ps[k].1, m.value, n);
      InsertNew(js[..k], m);
      assert js == js[..k] + [m];
      assert forall i :: 0 <= i < k ==> PairValues(ps[..k])[i] == PairValues(ps)[i];
    }
  }

  /** Allocation elsewhere changes nothing that is read from a live graph. */
  lemma ReadKept(h: State, g: State, v: JValue, n: nat)
    requires Extends(h, g) && Unfolds(h, v, n)
    ensures Unfolds(g, v, n) && Read(g, v, n) == Read(h, v, n)
    decreases n, 1, 0
  {
    if v.Obj? {
      match h.objects[v.id].native {
        case Some(JsonArr(items)) => ReadAllKept(h, g, items, n - 1);
        case Some(JsonObj(pairs)) => ReadPairsKept(h, g, pairs, n - 1);
        case _ =>
      }
    }
  }

  lemma {:induction false} ReadAllKept(h: State, g: State, vs: seq<JValue>, n: nat)
    requires Extends(h, g) && UnfoldsAll(h, vs, n)
    ensures UnfoldsAll(g, vs, n) && ReadAll(g, vs, n) == ReadAll(h, vs, n)
    decreases n, 2, |vs|
  {
    if vs != [] {
      var k := |vs| - 1;
      assert forall i :: 0 <= i < k ==> vs[..k][i] == vs[i];
      ReadAllKept(h, g, vs[..k], n);
      ReadKept(h, g, vs[k], n);
    }
  }

  lemma {:induction false} ReadPairsKept(h: State, g: State, ps: seq<(string, JValue)>, n: nat)
    requires Extends(h, g) && UnfoldsAll(h, PairValues(ps), n)
    ensures UnfoldsAll(g, PairValues(ps), n) && ReadPairs(g, ps, n) == ReadPairs(h, ps, n)
    decreases n, 2, |ps|
  {
    if ps != [] {
      var k := |ps| - 1;
      assert forall i :: 0 <= i < k ==> PairValues(ps[..k])[i] == PairValues(ps)[i];
      assert PairValues(ps)[k] == ps[k].1;
      ReadPairsKept(h, g, ps[..k], n);
      ReadKept(h, g, ps[k].1, n);
    }
  }

  /** A prefix that cannot be read makes the whole unreadable. */
  lemma {:induction false} ReadAllStops(h: State, vs: seq<JValue>, k: nat, n: nat)
    requires k <= |vs| && ReadAll(h, vs[..k], n).None?
    ensures ReadAll(h, vs, n).None?
    decreases |vs| - k
  {
    if k == |vs| {
      assert vs[..k] == vs;
    } else {
      assert vs[..k + 1][..k] == vs[..k];
      ReadAllStops(h, vs, k + 1, n);
    }
  }

  lemma {:induction false} ReadPairsStops(h: State, ps: seq<(string, JValue)>, k: nat, n: nat)
    requires k <= |ps| && ReadPairs(h, ps[..k], n).None?
    ensures ReadPairs(h, ps, n).None?
    decreases |ps| - k
  {
    if k == |ps| {
      assert ps[..k] == ps;
    } else {
      assert ps[..k + 1][..k] == ps[..k];
      ReadPairsStops(h, ps, k + 1, n);
    }
  }

  /** The exception of the natives: a `NullPointerException` object. */
  predicate IsNpe(vm: Vm, id: nat)
    reads vm, vm.arena
  {
    && id < |vm.arena.objects|
    && vm.arena.objects[id].native.Some?
    && vm.arena.objects[id].native.value.Throwable?
    && (NPE in vm.classByDesc ==> vm.arena.objects[id].cls == vm.classByDesc[NPE])
  }

  /** Reads a graph of depth at most n. The exception object is allocated before it is
      known whether it is needed. */
  method JvalueToJson(vm: Vm, v: JValue, ghost n: nat) returns (r: Result<Json, nat>)
    requires vm.Valid() && Unfolds(vm.arena.View(), v, n)
    modifies vm.arena
    ensures vm.Valid() && Extends(old(vm.arena.View()), vm.arena.View())
    ensures old(vm.Sound()) ==> vm.Sound() && (r.Err? ==> vm.arena.View().Live(r.error))
    ensures r.Ok? ==> Read(old(vm.arena.View()), v, n) == Some(r.value)
    ensures r.Err? ==> Read(old(vm.arena.View()), v, n) == None && IsNpe(vm, r.error)
    decreases n, 1
  {
    ghost var h := vm.arena.View();
    var npe := vm.ThrowableOf(NPE, "");
    match v {
      case Null => r := Ok(JNull);
      case Int(i) => r := Ok(JNum(i));
      case Long(l) => r := Ok(JNum(l));
      case Obj(id) =>
        match vm.arena.objects[id].native {
          case Some(Str(s)) => r := Ok(JStr(s));
          case Some(IntBox(i)) => r := Ok(JNum(i));
          case Some(LongBox(l)) => r := Ok(JNum(l));
          case Some(BoolBox(b)) => r := Ok(JBool(b));
          case Some(JsonObj(pairs)) =>
            var ms := PairsToJson(vm, pairs, h, n - 1);
            r := if ms.Ok? then Ok(JObj(ms.value)) else Err(ms.error);
          case Some(JsonArr(items)) =>
            var js := ItemsToJson(vm, items, h, n - 1);
            r := if js.Ok? then Ok(JArr(js.value)) else Err(js.error);
          case _ => r := Err(npe);
        }
    }
  }

  method ItemsToJson(vm: Vm, items: seq<JValue>, ghost h: State, ghost n: nat)
    returns (r: Result<seq<Json>, nat>)
    requires vm.Valid() && UnfoldsAll(h, items, n) && Extends(h, vm.arena.View())
    modifies vm.arena
    ensures vm.Valid() && Extends(old(vm.arena.View()), vm.arena.View())
    ensures old(vm.Sound()) ==> vm.Sound() && (r.Err? ==> vm.arena.View().Live(r.error))
    ensures r.Ok? ==> ReadAll(h, items, n) == Some(r.value)
    ensures r.Err? ==> ReadAll(h, items, n) == None && IsNpe(vm, r.error)
    decreases n, 2
  {
    var arr: seq<Json> := [];
    for k := 0 to |items|
      invariant vm.Valid() && (old(vm.Sound()) ==> vm.Sound()) && Extends(old(vm.arena.View()), vm.arena.View())
      invariant ReadAll(h, items[..k], n) == Some(arr)
    {
      ReadKept(h, vm.arena.View(), items[k], n);
      assert items[..k + 1][..k] == items[..k];
      var j := JvalueToJson(vm, items[k], n);
      if j.Err? {
        ReadAllStops(h, items, k + 1, n);
        return Err(j.error);
      }
      arr := arr + [j.value];
    }
    assert items[..|items|] == items;
    r := Ok(arr);
  }

  method PairsToJson(vm: Vm, pairs: seq<(string, JValue)>, ghost h: State, ghost n: nat)
    returns (r: Result<seq<Member>, nat>)
    requires vm.Valid() && UnfoldsAll(h, PairValues(pairs), n) && Extends(h, vm.arena.View())
    modifies vm.arena
    ensures vm.Valid() && Extends(old(vm.arena.View()), vm.arena.View())
    ensures old(vm.Sound()) ==> vm.Sound() && (r.Err? ==> vm.arena.View().Live(r.error))
    ensures r.Ok? ==> ReadPairs(h, pairs, n) == Some(r.value)
    ensures r.Err? ==> ReadPairs(h, pairs, n) == None && IsNpe(vm, r.error)
    decreases n, 2
  {
    var ms: seq<Member> := [];
    for k := 0 to |pairs|
      invariant vm.Valid() && (old(vm.Sound()) ==> vm.Sound()) && Extends(old(vm.arena.View()), vm.arena.View())
      invariant ReadPairs(h, pairs[..k], n) == Some(ms)
    {
      assert PairValues(pairs)[k] == pairs[k].1;
      ReadKept(h, vm.arena.View(), pairs[k].1, n);
      assert pairs[..k + 1][..k] == pairs[..k];
      var j := JvalueToJson(vm, pairs[k].1, n);
      if j.Err? {
        ReadPairsStops(h, pairs, k + 1, n);
        return Err(j.error);
      }
      ms := Insert(ms, Member(pairs[k].0, j.value));
    }
    assert pairs[..|pairs|] == pairs;
    r := Ok(ms);
  }

  // ---- collection between building and reading ----

  /** Every object live and reachable in `h` is live in `g`, and the same. */
  ghost predicate Preserves(h: State, g: State, roots: set<nat>) {
    forall id: nat :: Reachable(h.objects, roots, id) && h.Live(id)
      ==> g.Live(id) && g.objects[id] == h.objects[id]
  }

  ghost predicate ReachableValue(h: State, roots: set<nat>, v: JValue) {
    v.Obj? && v.id < |h.objects| ==> Reachable(h.objects, roots, v.id)
  }

  /** What a reachable object holds is reachable. */
  lemma HeldReachable(h: State, roots: set<nat>, id: nat, k: nat)
    requires id < |h.objects| && Reachable(h.objects, roots, id)
    requires h.objects[id].native.Some? && k < |Held(h.objects[id].native.value)|
    ensures ReachableValue(h, roots, Held(h.objects[id].native.value)[k])
  {
    var held := Held(h.objects[id].native.value);
    if held[k].Obj? && held[k].id < |h.objects| {
      IdsHas(held, k);
      RefReachable(h.objects, roots, id, held[k].id);
    }
  }

  lemma RepresentsReachable(h: State, g: State, roots: set<nat>, v: JValue, j: Json)
    requires Preserves(h, g, roots) && Represents(h, v, j) && ReachableValue(h, roots, v)
    ensures Represents(g, v, j)
    decreases j
  {
    match j {
      case JArr(items) =>
        var vs := h.objects[v.id].native.value.items;
        forall k | 0 <= k < |vs|
          ensures ReachableValue(h, roots, vs[k])
        {
          HeldReachable(h, roots, v.id, k);
        }
        ReachableAll(h, g, roots, vs, items);
      case JObj(pairs) =>
        var ps := h.objects[v.id].native.value.pairs;
        forall k | 0 <= k < |ps|
          ensures ReachableValue(h, roots, ps[k].1)
        {
          HeldReachable(h, roots, v.id, k);
        }
        ReachablePairs(h, g, roots, ps, pairs);
      case _ =>
    }
  }

  lemma {:induction false} ReachableAll(h: State, g: State, roots: set<nat>, vs: seq<JValue>, js: seq<Json>)
    requires Preserves(h, g, roots) && RepresentAll(h, vs, js)
    requires forall k :: 0 <= k < |vs| ==> ReachableValue(h, roots, vs[k])
    ensures RepresentAll(g, vs, js)
    decreases js
  {
    if js != [] {
      ReachableAll(h, g, roots, vs[..|vs| - 1], js[..|js| - 1]);
      RepresentsReachable(h, g, roots, vs[|vs| - 1], js[|js| - 1]);
    }
  }

  lemma {:induction false} ReachablePairs(h: State, g: State, roots: set<nat>, ps: seq<(string, JValue)>,
                                          js: seq<Member>)
    requires Preserves(h, g, roots) && RepresentPairs(h, ps, js)
    requires forall k :: 0 <= k < |ps| ==> ReachableValue(h, roots, ps[k].1)
    ensures RepresentPairs(g, ps, js)
    decreases js
  {
    if js != [] {
      var m := js[|js| - 1];
      assert m.value < m;
      ReachablePairs(h, g, roots, ps[..|ps| - 1], js[..|js| - 1]);
      RepresentsReachable(h, g, roots, ps[|ps| - 1].1, m.value);
    }
  }

  /** A tree held by a root survives every collection and every allocation after it. */
  lemma TreeSurvives(h: State, roots: set<nat>, v: JValue, j: Json, os: seq<JObject>)
    requires h.InRange() && Represents(h, v, j)
    requires v.Obj? ==> v.id in roots
    ensures Collected(h, roots).InRange()
    ensures Represents(AllocAll(Collected(h, roots), os), v, j)
  {
    CollectedInRange(h, roots);
    var g := AllocAll(Collected(h, roots), os);
    forall id: nat | Reachable(h.objects, roots, id) && h.Live(id)
      ensures g.Live(id) && g.objects[id] == h.objects[id]
    {
      ReachableKept(h, roots, os, id);
    }
    if v.Obj? && v.id < |h.objects| {
      RootReachable(h.objects, roots, v.id);
    }
    RepresentsReachable(h, g, roots, v, j);
  }

  /** What is built has the same keys, so none twice either. */
  lemma BuiltDistinct(classes: map<string, nat>, j: Json)
    requires KeysDistinct(j)
    ensures KeysDistinct(Built(classes, j))
    decreases j
  {
    match j {
      case JArr(items) => BuiltAllDistinct(classes, items);
      case JObj(pairs) => BuiltPairsDistinct(classes, pairs);
      case _ =>
    }
  }

  lemma {:induction false} BuiltAllDistinct(classes: map<string, nat>, js: seq<Json>)
    requires AllDistinct(js)
    ensures AllDistinct(BuiltAll(classes, js))
    decreases js
  {
    if js != [] {
      BuiltAllDistinct(classes, js[..|js| - 1]);
      BuiltDistinct(classes, js[|js| - 1]);
      Parts(BuiltAll(classes, js[..|js| - 1]), [Built(classes, js[|js| - 1])]);
    }
  }

  lemma {:induction false} BuiltPairsDistinct(classes: map<string, nat>, ms: seq<Member>)
    requires DistinctPairs(ms)
    ensures DistinctPairs(BuiltPairs(classes, ms))
    decreases ms
  {
    if ms != [] {
      var m, rest := ms[|ms| - 1], ms[..|ms| - 1];
      assert m.value < m;
      BuiltPairsDistinct(classes, rest);
      BuiltDistinct(classes, m.value);
      Parts(BuiltPairs(classes, rest), [Member(m.key, Built(classes, m.value))]);
      assert Keys(BuiltPairs(classes, rest)) <= Keys(rest);
    }
  }

  /** Building a tree and reading it back gives the tree that was built; nothing that was live
      changes. */
  method BuildAndRead(vm: Vm, j: Json) returns (r: Result<Json, string>)
    requires vm.Sound() && KeysDistinct(j)
    modifies vm`runtimeStrings, vm.arena
    ensures vm.Sound() && Extends(old(vm.arena.View()), vm.arena.View())
    ensures match Missing(vm.classByDesc, j)
      case Some(desc) => r == Err(desc)
      case None => r == Ok(Built(vm.classByDesc, j))
  {
    var v := JsonToJvalue(vm, j);
    if v.Err? {
      return Err(v.error);
    }
    ghost var built := Built(vm.classByDesc, j);
    BuiltDistinct(vm.classByDesc, j);
    ReadRepresented(vm.arena.View(), v.value, built, Depth(built));
    var back := JvalueToJson(vm, v.value, Depth(built));
    r := Ok(back.value);
  }

  /** Building a tree, collecting with its root held, and reading it back gives the tree that
      was built, whatever was on the free list before; with the boxed class, the tree itself. */
  method BuildCollectRead(vm: Vm, j: Json, held: seq<nat>) returns (r: Result<Json, string>)
    requires vm.Sound() && KeysDistinct(j)
    requires forall id :: id in vm.monitors ==> id < |vm.arena.objects|
    modifies vm`runtimeStrings, vm`monitors, vm.arena
    ensures vm.Valid()
    ensures match Missing(vm.classByDesc, j)
      case Some(desc) => r == Err(desc)
      case None => r == Ok(Built(vm.classByDesc, j))
  {
    var v := JsonToJvalue(vm, j);
    if v.Err? {
      return Err(v.error);
    }
    ghost var built, h := Built(vm.classByDesc, j), vm.arena.View();
    var extra := if v.value.Obj? then held + [v.value.id] else held;
    ghost var roots := vm.Roots(extra);
    var _ := vm.Gc(extra);
    TreeSurvives(h, roots, v.value, built, []);
    BuiltDistinct(vm.classByDesc, j);
    ReadRepresented(vm.arena.View(), v.value, built, Depth(built));
    var back := JvalueToJson(vm, v.value, Depth(built));
    r := Ok(back.value);
  }

  // ---- lookup and update of object members ----

  function Find(pairs: seq<(string, JValue)>, key: string): Option<JValue> {
    if pairs == [] then None
    else if pairs[0].0 == key then Some(pairs[0].1)
    else Find(pairs[1..], key)
  }

  function Put(pairs: seq<(string, JValue)>, key: string, v: JValue): seq<(string, JValue)> {
    if pairs == [] then [(key, v)]
    else if pairs[0].0 == key then [(key, v)] + pairs[1..]
    else [pairs[0]] + Put(pairs[1..], key, v)
  }

  /** An update is found again, changes no other key, and keeps the order of the keys. */
  lemma {:induction false} FindPut(pairs: seq<(string, JValue)>, key: string, v: JValue, other: string)
    ensures Find(Put(pairs, key, v), other) == (if other == key then Some(v) else Find(pairs, other))
    ensures KeyOrder(Put(pairs, key, v))
         == (if Find(pairs, key).Some? then KeyOrder(pairs) else KeyOrder(pairs) + [key])
  {
    if pairs != [] {
      var rest := pairs[1..];
      if pairs[0].0 == key {
        assert ([(key, v)] + rest)[1..] == rest;
      } else {
        FindPut(rest, key, v, other);
        assert ([pairs[0]] + Put(rest, key, v))[1..] == Put(rest, key, v);
        Assoc([pairs[0].0], KeyOrder(rest), [key]);
      }
    }
  }

  function KeyOrder(pairs: seq<(string, JValue)>): seq<string> {
    if pairs == [] then [] else [pairs[0].0] + KeyOrder(pairs[1..])
  }

  /** The members of a JSON object; none for any other value. */
  function Members(h: State, v: JValue): Option<seq<(string, JValue)>> {
    if v.Obj? && v.id < |h.objects| && h.objects[v.id].native.Some? && h.objects[v.id].native.value.JsonObj?
    then Some(h.objects[v.id].native.value.pairs)
    else None
  }

  function Text(h: State, v: JValue): Option<string> {
    if v.Obj? && v.id < |h.objects| && h.objects[v.id].native.Some? && h.objects[v.id].native.value.Str?
    then Some(h.objects[v.id].native.value.s)
    else None
  }

  method FindIn(pairs: seq<(string, JValue)>, key: string) returns (r: Option<JValue>)
    ensures r == Find(pairs, key)
  {
    for i := 0 to |pairs|
      invariant Find(pairs, key) == Find(pairs[i..], key)
    {
      if pairs[i].0 == key {
        return Some(pairs[i].1);
      }
      DropDrop(pairs, i, 1);
    }
    r := None;
  }

  method JsonFind(vm: Vm, obj: JValue, key: string) returns (r: Result<Option<JValue>, nat>)
    requires vm.Valid() && (obj.Obj? ==> vm.arena.View().Live(obj.id))
    modifies vm.arena
    ensures vm.Valid() && Extends(old(vm.arena.View()), vm.arena.View())
    ensures old(vm.Sound()) ==> vm.Sound() && (r.Err? ==> vm.arena.View().Live(r.error))
    ensures Members(old(vm.arena.View()), obj).Some?
        ==> r == Ok(Find(Members(old(vm.arena.View()), obj).value, key))
    ensures Members(old(vm.arena.View()), obj).None? ==> r.Err? && IsNpe(vm, r.error)
  {
    var npe := vm.ThrowableOf(NPE, "");
    var members := Members(vm.arena.View(), obj);
    if members.None? {
      return Err(npe);
    }
    var found := FindIn(members.value, key);
    r := Ok(found);
  }

  /** The search for a member with the key, then the write in place or the push. */
  method PutInPlace(pairs: seq<(string, JValue)>, key: string, v: JValue)
    returns (r: seq<(string, JValue)>)
    ensures r == Put(pairs, key, v)
  {
    for i := 0 to |pairs|
      invariant Put(pairs, key, v) == pairs[..i] + Put(pairs[i..], key, v)
    {
      DropDrop(pairs, i, 1);
      if pairs[i].0 == key {
        assert pairs[..i] + ([(key, v)] + pairs[i + 1..]) == pairs[i := (key, v)];
        return pairs[i := (key, v)];
      }
      assert pairs[..i + 1] == pairs[..i] + [pairs[i]];
      Assoc(pairs[..i], [pairs[i]], Put(pairs[i + 1..], key, v));
    }
    assert pairs[..|pairs|] == pairs;
    r := pairs + [(key, v)];
  }

  /** `json_put_obj`: edits the object itself; nothing else that is live changes. */
  method JsonPutObj(vm: Vm, obj: JValue, name: JValue, v: JValue) returns (r: Result<JValue, nat>)
    requires vm.Valid()
    requires obj.Obj? ==> vm.arena.View().Live(obj.id)
    modifies vm.arena
    ensures vm.Valid()
    ensures old(vm.Sound()) ==> vm.Sound() && (r.Err? ==> vm.arena.View().Live(r.error))
    ensures var h, g := old(vm.arena.View()), vm.arena.View();
      if Text(h, name).Some? && Members(h, obj).Some?
      then
        && r == Ok(obj)
        && g.Live(obj.id)
        && Members(g, obj) == Some(Put(Members(h, obj).value, Text(h, name).value, v))
        && forall id: nat :: h.Live(id) && id != obj.id ==> g.Live(id) && g.objects[id] == h.objects[id]
      else r.Err? && IsNpe(vm, r.error) && Extends(h, g)
  {
    var text := Text(vm.arena.View(), name);
    var npe := vm.ThrowableOf(NPE, "");
    var members := Members(vm.arena.View(), obj);
    if text.None? || members.None? {
      return Err(npe);
    }
    var pairs := PutInPlace(members.value, text.value, v);
    var o := vm.arena.objects[obj.id];
    vm.arena.objects := vm.arena.objects[obj.id := o.(native := Some(JsonObj(pairs)))];
    r := Ok(obj);
  }
}
