/** The object arena: stable ids, a free list, and the references an object holds. */
module Heap {
  import opened Wrappers
  import opened Seqs
  import opened Values

  /** A step of an observable stream; all but one hold a callback. */
  datatype RxOperator =
    | Map(callback: JValue)
    | FlatMap(callback: JValue)
    | DoOnNext(callback: JValue)
    | ToList
    | OnErrorReturn(callback: JValue)
    | OnErrorResumeNext(callback: JValue)
    | DoOnTerminate(callback: JValue)

  /** The serializers registered for a base class: subclass and serializer, and a default. */
  datatype Registration =
    Registration(base: JValue, subs: seq<(JValue, JValue)>, default: Option<JValue>)

  /** Payloads that only host methods outside this model read. `Values` stands for every
      payload that is a list or a few fields of values, all of them pushed in order:
      collections, pairs, requests under way, serializers, page models and the like;
      `Reference` for those that name one other object: iterators, map entries, streams, a
      canvas; `Opaque` for those that hold no value. */
  datatype Payload =
    | Values(items: seq<JValue>)
    | Reference(over: nat)
    | RxObservable(values: seq<JValue>, error: JValue, callable: JValue, operators: seq<RxOperator>)
    | MapOf(entries: seq<(JValue, JValue)>)
    | KotlinLazy(f: JValue, cached: Option<JValue>)
    | ResponseBuilder(body: Option<JValue>, from: Option<JValue>, before: Option<JValue>)
    | Request(body: Option<JValue>)
    | Response(request: JValue, prior: JValue)
    | SFilter(children: seq<JValue>, options: seq<JValue>)
    | SerializersModule(polys: seq<Registration>)
    | SerialDescriptor(annotations: seq<seq<JValue>>)
    | JsonDecoder(element: JValue, members: Option<seq<(string, JValue)>>, carrying: Option<JValue>)
    | Intent(extras: seq<(string, JValue)>)
    | Preference(texts: seq<Option<JValue>>, defaultValue: JValue, labels: seq<JValue>, labelValues: seq<JValue>)
    | PreferenceScreen(children: seq<JValue>, title: Option<JValue>)
    | Opaque

  /** The payloads of host-backed objects. */
  datatype Native =
    | Str(s: string)
    | BoolBox(b: bool)
    | IntBox(i: I32)
    | CharBox(c: nat)
    | ByteBox(i: I32)
    | ShortBox(i: I32)
    | LongBox(l: I64)
    | Throwable(message: string, cause: JValue)
    | ObjArray(items: seq<JValue>)
    | PrimArray(bits: seq<int>)
    | ClassObj(cls: nat)
    | JsonObj(pairs: seq<(string, JValue)>)
    | JsonArr(items: seq<JValue>)
    | Host(payload: Payload)

  datatype JObject = JObject(cls: nat, fields: seq<JValue>, native: Option<Native>)

  // ---- references ----

  /** The ids among a list of values, in order. */
  function Ids(vs: seq<JValue>): seq<nat> {
    if vs == [] then []
    else Ids(vs[..|vs| - 1]) + (var last := vs[|vs| - 1]; if last.Obj? then [last.id] else [])
  }

  function EntryValues(entries: seq<(JValue, JValue)>): seq<JValue> {
    if entries == [] then []
    else EntryValues(entries[..|entries| - 1]) + [entries[|entries| - 1].0, entries[|entries| - 1].1]
  }

  function PairValues(pairs: seq<(string, JValue)>): (r: seq<JValue>)
    ensures |r| == |pairs|
    ensures forall i :: 0 <= i < |pairs| ==> r[i] == pairs[i].1
  {
    if pairs == [] then [] else PairValues(pairs[..|pairs| - 1]) + [pairs[|pairs| - 1].1]
  }

  function Given(v: Option<JValue>): seq<JValue> {
    if v.Some? then [v.value] else []
  }

  function AllGiven(vs: seq<Option<JValue>>): seq<JValue> {
    if vs == [] then [] else AllGiven(vs[..|vs| - 1]) + Given(vs[|vs| - 1])
  }

  function Membered(members: Option<seq<(string, JValue)>>): seq<JValue> {
    if members.Some? then PairValues(members.value) else []
  }

  function Callbacks(ops: seq<RxOperator>): seq<JValue> {
    if ops == [] then []
    else
      var last := ops[|ops| - 1];
      Callbacks(ops[..|ops| - 1]) + (if last.ToList? then [] else [last.callback])
  }

  function Firsts(entries: seq<(JValue, JValue)>): seq<JValue> {
    if entries == [] then [] else Firsts(entries[..|entries| - 1]) + [entries[|entries| - 1].0]
  }

  function Seconds(entries: seq<(JValue, JValue)>): seq<JValue> {
    if entries == [] then [] else Seconds(entries[..|entries| - 1]) + [entries[|entries| - 1].1]
  }

  function Registered(polys: seq<Registration>): seq<JValue> {
    if polys == [] then []
    else
      var last := polys[|polys| - 1];
      Registered(polys[..|polys| - 1]) + (([last.base] + Seconds(last.subs)) + Given(last.default))
  }

  /** The values of a payload that `collect_refs` looks at, in its order; a handle to another
      object counts as a value. */
  function HeldByHost(p: Payload): seq<JValue> {
    match p
    case Values(items) => items
    case Reference(over) => [Obj(over)]
    case RxObservable(values, error, callable, operators) => (values + [error, callable]) + Callbacks(operators)
    case MapOf(entries) => EntryValues(entries)
    case KotlinLazy(f, cached) => [f] + Given(cached)
    case ResponseBuilder(body, from, _) => Given(body) + Given(from)
    case Request(body) => Given(body)
    case Response(request, _) => [request]
    case SFilter(children, _) => children
    case SerializersModule(polys) => Registered(polys)
    case SerialDescriptor(_) => []
    case JsonDecoder(element, members, _) => [element] + Membered(members)
    case Intent(extras) => PairValues(extras)
    case Preference(texts, defaultValue, labels, labelValues) =>
      (AllGiven(texts) + [defaultValue]) + (labels + labelValues)
    case PreferenceScreen(children, title) => children + Given(title)
    case Opaque => []
  }

  function Held(n: Native): seq<JValue> {
    match n
    case Throwable(_, cause) => [cause]
    case ObjArray(items) => items
    case JsonObj(pairs) => PairValues(pairs)
    case JsonArr(items) => items
    case Host(payload) => HeldByHost(payload)
    case _ => []
  }

  // ---- what the payloads carry besides ----

  function Flat(lists: seq<seq<JValue>>): seq<JValue> {
    if lists == [] then [] else Flat(lists[..|lists| - 1]) + lists[|lists| - 1]
  }

  /** The values that a step of a stream stores. */
  function StepValues(op: RxOperator): seq<JValue> {
    match op
    case Map(callback) => [callback]
    case FlatMap(callback) => [callback]
    case DoOnNext(callback) => [callback]
    case ToList => []
    case OnErrorReturn(callback) => [callback]
    case OnErrorResumeNext(callback) => [callback]
    case DoOnTerminate(callback) => [callback]
  }

  /** The values that a serializer registration stores. */
  predicate InRegistration(p: Registration, v: JValue) {
    v == p.base || p.default == Some(v) || exists j :: 0 <= j < |p.subs| && (v == p.subs[j].0 || v == p.subs[j].1)
  }

  /** The value is stored in a payload, wherever in it. Every constructor is spelled out. */
  predicate Stores(n: Native, v: JValue) {
    match n
    case Str(_) => false
    case BoolBox(_) => false
    case IntBox(_) => false
    case CharBox(_) => false
    case ByteBox(_) => false
    case ShortBox(_) => false
    case LongBox(_) => false
    case Throwable(_, cause) => v == cause
    case ObjArray(items) => v in items
    case PrimArray(_) => false
    case ClassObj(_) => false
    case JsonObj(pairs) => exists k :: 0 <= k < |pairs| && pairs[k].1 == v
    case JsonArr(items) => v in items
    case Host(payload) => HostStores(payload, v)
  }

  predicate HostStores(p: Payload, v: JValue) {
    match p
    case Values(items) => v in items
    case Reference(over) => v == Obj(over)
    case RxObservable(values, error, callable, operators) =>
      v in values || v == error || v == callable || exists k :: 0 <= k < |operators| && v in StepValues(operators[k])
    case MapOf(entries) => exists k :: 0 <= k < |entries| && (v == entries[k].0 || v == entries[k].1)
    case KotlinLazy(f, cached) => v == f || cached == Some(v)
    case ResponseBuilder(body, from, before) => body == Some(v) || from == Some(v) || before == Some(v)
    case Request(body) => body == Some(v)
    case Response(request, prior) => v == request || v == prior
    case SFilter(children, options) => v in children || v in options
    case SerializersModule(polys) => exists k :: 0 <= k < |polys| && InRegistration(polys[k], v)
    case SerialDescriptor(annotations) => exists k :: 0 <= k < |annotations| && v in annotations[k]
    case JsonDecoder(element, members, carrying) =>
      v == element || carrying == Some(v)
      || (members.Some? && exists k :: 0 <= k < |members.value| && members.value[k].1 == v)
    case Intent(extras) => exists k :: 0 <= k < |extras| && extras[k].1 == v
    case Preference(texts, defaultValue, labels, labelValues) =>
      Some(v) in texts || v == defaultValue || v in labels || v in labelValues
    case PreferenceScreen(children, title) => v in children || title == Some(v)
    case Opaque => false
  }

  /** The values in six kinds of payload that `collect_refs` passes over: the response before
      a redirect, the options of a filter, the subclasses of a serializer registration, the
      annotations of a descriptor and the module of a decoder. */
  function Skipped(n: Native): seq<JValue> {
    match n
    case Host(ResponseBuilder(_, _, before)) => Given(before)
    case Host(Response(_, prior)) => [prior]
    case Host(SFilter(_, options)) => options
    case Host(SerializersModule(polys)) => Subclasses(polys)
    case Host(SerialDescriptor(annotations)) => Flat(annotations)
    case Host(JsonDecoder(_, _, carrying)) => Given(carrying)
    case _ => []
  }

  function Subclasses(polys: seq<Registration>): seq<JValue> {
    if polys == [] then [] else Subclasses(polys[..|polys| - 1]) + Firsts(polys[|polys| - 1].subs)
  }

  lemma {:induction false} EntryValuesHas(entries: seq<(JValue, JValue)>, v: JValue)
    ensures v in EntryValues(entries) <==> exists k :: 0 <= k < |entries| && (v == entries[k].0 || v == entries[k].1)
  {
    if entries != [] {
      var n := |entries| - 1;
      EntryValuesHas(entries[..n], v);
      assert forall k :: 0 <= k < n ==> entries[..n][k] == entries[k];
    }
  }

  lemma PairValuesHas(pairs: seq<(string, JValue)>, v: JValue)
    ensures v in PairValues(pairs) <==> exists k :: 0 <= k < |pairs| && pairs[k].1 == v
  {
    var values := PairValues(pairs);
    if k :| 0 <= k < |pairs| && pairs[k].1 == v {
      assert values[k] == v;
    }
    if v in values {
      var k :| 0 <= k < |values| && values[k] == v;
      assert pairs[k].1 == v;
    }
  }

  lemma {:induction false} AllGivenHas(vs: seq<Option<JValue>>, v: JValue)
    ensures v in AllGiven(vs) <==> Some(v) in vs
  {
    if vs != [] {
      var n := |vs| - 1;
      AllGivenHas(vs[..n], v);
      assert vs == vs[..n] + [vs[n]];
    }
  }

  lemma {:induction false} CallbacksHas(ops: seq<RxOperator>, v: JValue)
    ensures v in Callbacks(ops) <==> exists k :: 0 <= k < |ops| && v in StepValues(ops[k])
  {
    if ops != [] {
      var n := |ops| - 1;
      var before := ops[..n];
      CallbacksHas(before, v);
      assert StepValues(ops[n]) == if ops[n].ToList? then [] else [ops[n].callback];
      assert forall k :: 0 <= k < n ==> before[k] == ops[k];
    }
  }

  lemma {:induction false} FlatHas(lists: seq<seq<JValue>>, v: JValue)
    ensures v in Flat(lists) <==> exists k :: 0 <= k < |lists| && v in lists[k]
  {
    if lists != [] {
      var n := |lists| - 1;
      FlatHas(lists[..n], v);
      assert forall k :: 0 <= k < n ==> lists[..n][k] == lists[k];
    }
  }

  lemma {:induction false} FirstsHas(entries: seq<(JValue, JValue)>, v: JValue)
    ensures v in Firsts(entries) <==> exists j :: 0 <= j < |entries| && v == entries[j].0
  {
    if entries != [] {
      var n := |entries| - 1;
      FirstsHas(entries[..n], v);
      assert forall k :: 0 <= k < n ==> entries[..n][k] == entries[k];
    }
  }

  lemma {:induction false} SecondsHas(entries: seq<(JValue, JValue)>, v: JValue)
    ensures v in Seconds(entries) <==> exists j :: 0 <= j < |entries| && v == entries[j].1
  {
    if entries != [] {
      var n := |entries| - 1;
      SecondsHas(entries[..n], v);
      assert forall k :: 0 <= k < n ==> entries[..n][k] == entries[k];
    }
  }

  lemma RegistrationHas(p: Registration, v: JValue)
    ensures InRegistration(p, v)
       <==> v in ([p.base] + Seconds(p.subs)) + Given(p.default) || v in Firsts(p.subs)
  {
    FirstsHas(p.subs, v);
    SecondsHas(p.subs, v);
  }

  lemma RegistrationsSnoc(polys: seq<Registration>, v: JValue)
    requires polys != []
    ensures var n := |polys| - 1;
      v in Registered(polys) || v in Subclasses(polys)
      <==> v in Registered(polys[..n]) || v in Subclasses(polys[..n]) || InRegistration(polys[n], v)
  {
    RegistrationHas(polys[|polys| - 1], v);
  }

  lemma LastOrBefore(polys: seq<Registration>, v: JValue)
    requires polys != []
    ensures var n := |polys| - 1;
      (exists k :: 0 <= k < |polys| && InRegistration(polys[k], v))
      <==> (exists k :: 0 <= k < n && InRegistration(polys[..n][k], v)) || InRegistration(polys[n], v)
  {
    var n := |polys| - 1;
    var before := polys[..n];
    assert forall k :: 0 <= k < n ==> before[k] == polys[k];
    if k :| 0 <= k < n && InRegistration(before[k], v) {
      assert InRegistration(polys[k], v);
    }
    if k :| 0 <= k < |polys| && InRegistration(polys[k], v) {
      assert k == n || InRegistration(before[k], v);
    }
  }

  lemma {:induction false} RegistrationsHave(polys: seq<Registration>, v: JValue)
    ensures v in Registered(polys) || v in Subclasses(polys)
       <==> exists k :: 0 <= k < |polys| && InRegistration(polys[k], v)
  {
    if polys != [] {
      var n := |polys| - 1;
      var before := polys[..n];
      RegistrationsHave(before, v);
      RegistrationsSnoc(polys, v);
      LastOrBefore(polys, v);
    }
  }

  /** A value is stored in a payload exactly when the collector looks at it or it is one of
      those passed over. */
  lemma CarriedSplit(n: Native, v: JValue)
    ensures Stores(n, v) <==> v in Held(n) || v in Skipped(n)
  {
    match n {
      case JsonObj(pairs) => PairValuesHas(pairs, v);
      case Host(payload) => HostSplit(payload, v);
      case _ =>
    }
  }

  lemma ObservableSplit(values: seq<JValue>, error: JValue, callable: JValue, ops: seq<RxOperator>, v: JValue)
    ensures v in (values + [error, callable]) + Callbacks(ops)
       <==> v in values || v == error || v == callable || exists k :: 0 <= k < |ops| && v in StepValues(ops[k])
  {
    CallbacksHas(ops, v);
  }

  lemma PreferenceSplit(texts: seq<Option<JValue>>, d: JValue, labels: seq<JValue>, values: seq<JValue>, v: JValue)
    ensures v in (AllGiven(texts) + [d]) + (labels + values)
       <==> Some(v) in texts || v == d || v in labels || v in values
  {
    AllGivenHas(texts, v);
  }

  lemma DecoderSplit(element: JValue, members: Option<seq<(string, JValue)>>, carrying: Option<JValue>, v: JValue)
    ensures v in [element] + Membered(members) || v in Given(carrying)
       <==> v == element || carrying == Some(v)
            || (members.Some? && exists k :: 0 <= k < |members.value| && members.value[k].1 == v)
  {
    if members.Some? {
      PairValuesHas(members.value, v);
    }
  }

  lemma HostSplit(p: Payload, v: JValue)
    ensures HostStores(p, v) <==> v in HeldByHost(p) || v in Skipped(Host(p))
  {
    match p {
      case RxObservable(values, error, callable, ops) => ObservableSplit(values, error, callable, ops, v);
      case MapOf(entries) => EntryValuesHas(entries, v);
      case SerializersModule(polys) => RegistrationsHave(polys, v);
      case SerialDescriptor(annotations) => FlatHas(annotations, v);
      case JsonDecoder(element, members, carrying) => DecoderSplit(element, members, carrying, v);
      case Intent(extras) => PairValuesHas(extras, v);
      case Preference(texts, d, labels, values) => PreferenceSplit(texts, d, labels, values, v);
      case _ =>
    }
  }

  /** Every id an object references: its fields, then its payload. */
  function Refs(o: JObject): seq<nat> {
    Ids(o.fields) + (if o.native.Some? then Ids(Held(o.native.value)) else [])
  }

  lemma {:induction false} IdsAppend(a: seq<JValue>, b: seq<JValue>)
    ensures Ids(a + b) == Ids(a) + Ids(b)
  {
    if b == [] {
      Empty(a);
      Empty(Ids(a));
    } else {
      var n := |b| - 1;
      IdsAppend(a, b[..n]);
      assert (a + b)[..|a| + n] == a + b[..n];
      var last := if b[n].Obj? then [b[n].id] else [];
      assert Ids(b) == Ids(b[..n]) + last;
      Assoc(Ids(a), Ids(b[..n]), last);
    }
  }

  lemma {:induction false} IdsHas(vs: seq<JValue>, k: nat)
    requires k < |vs| && vs[k].Obj?
    ensures vs[k].id in Ids(vs)
  {
    if k < |vs| - 1 {
      IdsHas(vs[..|vs| - 1], k);
    }
  }

  /** `push_all`: appends the ids among `vs` to the output vector. */
  method PushAll(vs: seq<JValue>, out: seq<nat>) returns (r: seq<nat>)
    ensures r == out + Ids(vs)
  {
    r := out;
    for i := 0 to |vs|
      invariant r == out + Ids(vs[..i])
    {
      assert vs[..i + 1][..i] == vs[..i];
      if vs[i].Obj? {
        r := r + [vs[i].id];
      }
    }
    assert vs[..|vs|] == vs;
  }

  /** The loop over map entries: key, then value. */
  method PushEntries(entries: seq<(JValue, JValue)>, out: seq<nat>) returns (r: seq<nat>)
    ensures r == out + Ids(EntryValues(entries))
  {
    r := out;
    for i := 0 to |entries|
      invariant r == out + Ids(EntryValues(entries[..i]))
    {
      assert entries[..i + 1][..i] == entries[..i];
      IdsAppend(EntryValues(entries[..i]), [entries[i].0, entries[i].1]);
      r := PushAll([entries[i].0, entries[i].1], r);
    }
    assert entries[..|entries|] == entries;
  }

  /** The loop over the values of a JSON object. */
  method PushPairs(pairs: seq<(string, JValue)>, out: seq<nat>) returns (r: seq<nat>)
    ensures r == out + Ids(PairValues(pairs))
  {
    r := out;
    for i := 0 to |pairs|
      invariant r == out + Ids(PairValues(pairs[..i]))
    {
      assert pairs[..i + 1][..i] == pairs[..i];
      IdsAppend(PairValues(pairs[..i]), [pairs[i].1]);
      r := PushAll([pairs[i].1], r);
    }
    assert pairs[..|pairs|] == pairs;
  }

  lemma Joined(out: seq<nat>, a: seq<JValue>, b: seq<JValue>)
    ensures (out + Ids(a)) + Ids(b) == out + Ids(a + b)
  {
    IdsAppend(a, b);
    Assoc(out, Ids(a), Ids(b));
  }

  /** The closure `push` on an optional value. */
  method Push(v: Option<JValue>, out: seq<nat>) returns (r: seq<nat>)
    ensures r == out + Ids(Given(v))
  {
    r := out;
    if v.Some? && v.value.Obj? {
      r := r + [v.value.id];
      assert Ids([v.value]) == [v.value.id];
    }
  }

  /** The loop over the operators of an observable. */
  method PushCallbacks(ops: seq<RxOperator>, out: seq<nat>) returns (r: seq<nat>)
    ensures r == out + Ids(Callbacks(ops))
  {
    r := out;
    for i := 0 to |ops|
      invariant r == out + Ids(Callbacks(ops[..i]))
    {
      assert ops[..i + 1][..i] == ops[..i];
      if !ops[i].ToList? {
        Joined(out, Callbacks(ops[..i]), [ops[i].callback]);
        r := PushAll([ops[i].callback], r);
      } else {
        Empty(Callbacks(ops[..i]));
      }
    }
    assert ops[..|ops|] == ops;
  }

  method PushSeconds(entries: seq<(JValue, JValue)>, out: seq<nat>) returns (r: seq<nat>)
    ensures r == out + Ids(Seconds(entries))
  {
    r := out;
    for i := 0 to |entries|
      invariant r == out + Ids(Seconds(entries[..i]))
    {
      assert entries[..i + 1][..i] == entries[..i];
      Joined(out, Seconds(entries[..i]), [entries[i].1]);
      r := PushAll([entries[i].1], r);
    }
    assert entries[..|entries|] == entries;
  }

  /** The loop over the registrations: the subclass objects are not pushed. */
  method PushPolys(polys: seq<Registration>, out: seq<nat>) returns (r: seq<nat>)
    ensures r == out + Ids(Registered(polys))
  {
    r := out;
    for i := 0 to |polys|
      invariant r == out + Ids(Registered(polys[..i]))
    {
      var p := polys[i];
      assert polys[..i + 1][..i] == polys[..i];
      Joined(out, Registered(polys[..i]), ([p.base] + Seconds(p.subs)) + Given(p.default));
      ghost var before := r;
      Joined(before, [p.base], Seconds(p.subs));
      Joined(before, [p.base] + Seconds(p.subs), Given(p.default));
      r := PushAll([p.base], r);
      r := PushSeconds(p.subs, r);
      r := Push(p.default, r);
    }
    assert polys[..|polys|] == polys;
  }

  method PushGiven(vs: seq<Option<JValue>>, out: seq<nat>) returns (r: seq<nat>)
    ensures r == out + Ids(AllGiven(vs))
  {
    r := out;
    for i := 0 to |vs|
      invariant r == out + Ids(AllGiven(vs[..i]))
    {
      assert vs[..i + 1][..i] == vs[..i];
      Joined(out, AllGiven(vs[..i]), Given(vs[i]));
      r := Push(vs[i], r);
    }
    assert vs[..|vs|] == vs;
  }

  method PushMembers(members: Option<seq<(string, JValue)>>, out: seq<nat>) returns (r: seq<nat>)
    ensures r == out + Ids(Membered(members))
  {
    r := out;
    if members.Some? {
      r := PushPairs(members.value, r);
    }
  }

  /** One push after another. */
  method PushBoth(a: seq<JValue>, b: seq<JValue>, out: seq<nat>) returns (r: seq<nat>)
    ensures r == out + Ids(a + b)
  {
    Joined(out, a, b);
    r := PushAll(a, out);
    r := PushAll(b, r);
  }

  method PushObservable(values: seq<JValue>, error: JValue, callable: JValue, ops: seq<RxOperator>, out: seq<nat>)
    returns (r: seq<nat>)
    ensures r == out + Ids((values + [error, callable]) + Callbacks(ops))
  {
    Joined(out, values + [error, callable], Callbacks(ops));
    r := PushBoth(values, [error, callable], out);
    r := PushCallbacks(ops, r);
  }

  method PushPreference(texts: seq<Option<JValue>>, defaultValue: JValue, labels: seq<JValue>,
                        labelValues: seq<JValue>, out: seq<nat>)
    returns (r: seq<nat>)
    ensures r == out + Ids((AllGiven(texts) + [defaultValue]) + (labels + labelValues))
  {
    Joined(out, AllGiven(texts), [defaultValue]);
    Joined(out, AllGiven(texts) + [defaultValue], labels + labelValues);
    r := PushGiven(texts, out);
    r := PushAll([defaultValue], r);
    r := PushBoth(labels, labelValues, r);
  }

  method PushDecoder(element: JValue, members: Option<seq<(string, JValue)>>, out: seq<nat>)
    returns (r: seq<nat>)
    ensures r == out + Ids([element] + Membered(members))
  {
    Joined(out, [element], Membered(members));
    r := PushAll([element], out);
    r := PushMembers(members, r);
  }

  method CollectHost(p: Payload, out: seq<nat>) returns (r: seq<nat>)
    ensures r == out + Ids(HeldByHost(p))
  {
    match p {
      case Values(items) => r := PushAll(items, out);
      case Reference(over) => r := PushAll([Obj(over)], out);
      case RxObservable(values, error, callable, ops) => r := PushObservable(values, error, callable, ops, out);
      case MapOf(entries) => r := PushEntries(entries, out);
      case KotlinLazy(f, cached) => r := PushBoth([f], Given(cached), out);
      case ResponseBuilder(body, from, _) => r := PushBoth(Given(body), Given(from), out);
      case Request(body) => r := Push(body, out);
      case Response(request, _) => r := PushAll([request], out);
      case SFilter(children, _) => r := PushAll(children, out);
      case SerializersModule(polys) => r := PushPolys(polys, out);
      case JsonDecoder(element, members, _) => r := PushDecoder(element, members, out);
      case Intent(extras) => r := PushPairs(extras, out);
      case Preference(texts, defaultValue, labels, labelValues) =>
        r := PushPreference(texts, defaultValue, labels, labelValues, out);
      case PreferenceScreen(children, title) => r := PushBoth(children, Given(title), out);
      case _ =>
        Empty(out);
        r := out;
    }
  }

  /** `Native::collect_refs`. */
  method CollectNative(n: Native, out: seq<nat>) returns (r: seq<nat>)
    ensures r == out + Ids(Held(n))
  {
    r := out;
    match n {
      case Throwable(_, cause) => r := PushAll([cause], r);
      case ObjArray(items) => r := PushAll(items, r);
      case JsonObj(pairs) => r := PushPairs(pairs, r);
      case JsonArr(items) => r := PushAll(items, r);
      case Host(payload) =>
        assert Held(n) == HeldByHost(payload);
        r := CollectHost(payload, r);
      case _ =>
    }
  }

  /** `JObject::collect_refs`. */
  method CollectRefs(o: JObject, out: seq<nat>) returns (r: seq<nat>)
    ensures r == out + Refs(o)
  {
    r := PushAll(o.fields, out);
    if o.native.Some? {
      r := CollectNative(o.native.value, r);
    }
  }

  // ---- the arena ----

  datatype State = State(objects: seq<JObject>, free: seq<nat>) {

    /** Every id on the free list is an object slot. */
    predicate InRange() {
      forall i :: 0 <= i < |free| ==> free[i] < |objects|
    }

    /** The slot the k-th allocation from here on will take. */
    function Slot(k: nat): nat {
      if k < |free| then free[|free| - 1 - k] else |objects| + (k - |free|)
    }

    function Alloc(o: JObject): State
      requires InRange()
    {
      if free == [] then State(objects + [o], [])
      else State(objects[free[|free| - 1] := o], free[..|free| - 1])
    }

    predicate Live(id: nat) {
      id < |objects| && id !in free
    }

    /** The slots in use. */
    function LiveSlots(): set<nat> {
      set id | 0 <= id < |objects| && id !in free
    }

    /** What `live_count` subtracts: the slots less the entries of the free list. */
    function LiveCount(): int {
      |objects| - |free|
    }
  }

  /** An allocation takes the entry that was freed last, and only that slot changes; with no
      free slot it makes one at the end. */
  lemma AllocTakes(s: State, o: JObject)
    requires s.InRange()
    ensures var t := s.Alloc(o);
      && s.Slot(0) < |t.objects| && t.objects[s.Slot(0)] == o
      && (forall i :: 0 <= i < |s.objects| && i != s.Slot(0) ==> i < |t.objects| && t.objects[i] == s.objects[i])
      && if s.free == [] then |t.objects| == |s.objects| + 1 && s.Slot(0) == |s.objects| && t.free == []
         else |t.objects| == |s.objects| && s.free == t.free + [s.Slot(0)]
  {
  }

  class Arena {
    var objects: seq<JObject>
    var free: seq<nat>

    function View(): State
      reads this
    {
      State(objects, free)
    }

    constructor ()
      ensures View() == State([], [])
    {
      objects, free := [], [];
    }

    method Alloc(cls: nat, fields: seq<JValue>, native: Option<Native>) returns (id: nat)
      requires View().InRange()
      modifies this
      ensures View() == old(View()).Alloc(JObject(cls, fields, native)) && View().InRange()
      ensures id == old(View()).Slot(0)
    {
      if |free| > 0 {
        var f := free[|free| - 1];
        free := free[..|free| - 1];
        objects := objects[f := JObject(cls, fields, native)];
        return f;
      }
      id := |objects|;
      objects := objects + [JObject(cls, fields, native)];
    }

    method Reclaim(id: nat)
      modifies this`free
      ensures free == old(free) + [id]
    {
      free := free + [id];
    }

    /** `live_count`; none where the unsigned subtraction underflows. */
    method LiveCount() returns (n: Option<nat>)
      ensures n == if View().LiveCount() >= 0 then Some(View().LiveCount()) else None
      ensures View().InRange() && Distinct(free) ==> n == Some(|View().LiveSlots()|)
    {
      assert View().InRange() ==> (View().LiveCount() == |View().LiveSlots()| <==> Distinct(free)) by {
        if View().InRange() {
          CountExact(View());
        }
      }
      n := if |free| <= |objects| then Some(|objects| - |free|) else None;
    }
  }

  /** The count never exceeds the number of slots in use, and it is that number exactly when
      no slot is on the free list twice. */
  lemma CountExact(h: State)
    requires h.InRange()
    ensures h.LiveCount() <= |h.LiveSlots()|
    ensures h.LiveCount() == |h.LiveSlots()| <==> Distinct(h.free)
  {
    var all, taken := Upto(|h.objects|), SetOf<nat>(h.free);
    ElementCount(h.free);
    assert taken <= all && h.LiveSlots() == all - taken;
    assert all * taken == taken;
  }

  // ---- runs of allocations ----

  function AllocAll(h: State, os: seq<JObject>): (r: State)
    requires h.InRange()
    ensures r.InRange()
    decreases |os|
  {
    if os == [] then h else AllocAll(h.Alloc(os[0]), os[1..])
  }

  lemma NoDupAppend(a: seq<nat>, b: seq<nat>)
    ensures Distinct(a + b) <==> Distinct(a) && Distinct(b) && forall x :: x in a ==> x !in b
  {
    var all := a + b;
    if Distinct(all) {
      assert forall i :: 0 <= i < |a| ==> a[i] == all[i];
      assert forall j :: 0 <= j < |b| ==> b[j] == all[|a| + j];
    }
    if Distinct(a) && Distinct(b) && forall x :: x in a ==> x !in b {
      forall i, j | 0 <= i < j < |all|
        ensures all[i] != all[j]
      {
        if i < |a| <= j {
          assert b[j - |a|] in b;
          assert a[i] in a;
        }
      }
    }
  }

  lemma Snoc(a: seq<nat>, x: nat)
    requires Distinct(a) && x !in a
    ensures Distinct(a + [x])
  {
    assert forall i :: 0 <= i < |a| ==> a[i] in a;
  }

  lemma SlotNext(h: State, o: JObject, k: nat)
    requires h.InRange()
    ensures h.Alloc(o).Slot(k) == h.Slot(k + 1)
  {
  }

  /** What a run of allocations leaves: the k-th one took slot k, slots not taken keep
      their object, and the live count grew by exactly the number of allocations. */
  lemma {:induction false} AllocRun(h: State, os: seq<JObject>)
    requires h.InRange()
    ensures var r := AllocAll(h, os);
      && r.LiveCount() == h.LiveCount() + |os|
      && |h.objects| <= |r.objects|
      && forall id :: 0 <= id < |h.objects| && (forall k :: 0 <= k < |os| ==> h.Slot(k) != id)
           ==> r.objects[id] == h.objects[id]
    decreases |os|
  {
    if os != [] {
      var g := h.Alloc(os[0]);
      AllocRun(g, os[1..]);
      forall id | 0 <= id < |h.objects| && forall k :: 0 <= k < |os| ==> h.Slot(k) != id
        ensures AllocAll(h, os).objects[id] == h.objects[id]
      {
        assert h.Slot(0) != id;
        forall k | 0 <= k < |os| - 1
          ensures g.Slot(k) != id
        {
          SlotNext(h, os[0], k);
        }
      }
    }
  }

  /** Slots are handed out at most once exactly when the free list has no duplicate. */
  lemma SlotsDistinct(h: State)
    requires h.InRange()
    ensures Distinct(h.free) <==> forall j: nat, k: nat :: j < k ==> h.Slot(j) != h.Slot(k)
  {
    if forall j: nat, k: nat :: j < k ==> h.Slot(j) != h.Slot(k) {
      forall i, j | 0 <= i < j < |h.free|
        ensures h.free[i] != h.free[j]
      {
        assert h.Slot(|h.free| - 1 - j) == h.free[j] && h.Slot(|h.free| - 1 - i) == h.free[i];
      }
    }
  }

  /** A live object is never handed out; so a run of allocations leaves it as it was. */
  lemma {:induction false} LiveKept(h: State, os: seq<JObject>, id: nat)
    requires h.InRange() && h.Live(id)
    ensures AllocAll(h, os).Live(id) && AllocAll(h, os).objects[id] == h.objects[id]
    ensures forall k: nat :: h.Slot(k) != id
    decreases |os|
  {
    if os != [] {
      LiveKept(h.Alloc(os[0]), os[1..], id);
    }
  }

  // ---- what allocation keeps ----

  function StringObject(cls: nat, s: string): JObject {
    JObject(cls, [], Some(Str(s)))
  }

  /** No slot is lost, and every live object of `h` is live in `g`, and the same. */
  predicate Extends(h: State, g: State) {
    && |h.objects| <= |g.objects|
    && forall id :: 0 <= id < |h.objects| && id !in h.free ==> g.Live(id) && g.objects[id] == h.objects[id]
  }

  /** Allocation keeps every live object. The new object is live, and stays the only one in
      its slot, when the free list has no duplicate. */
  lemma AllocExtends(h: State, o: JObject)
    requires h.InRange()
    ensures var g, id := h.Alloc(o), h.Slot(0);
      && Extends(h, g) && g.InRange() && id < |g.objects| && g.objects[id] == o && !h.Live(id)
      && (Distinct(h.free) ==> Distinct(g.free) && g.Live(id))
  {
    var g := h.Alloc(o);
    if h.free != [] {
      var n := |h.free| - 1;
      assert h.free[n] in h.free;
      forall id | id in g.free
        ensures id in h.free
      {
        var i :| 0 <= i < n && h.free[..n][i] == id;
        assert h.free[i] == id;
      }
      if Distinct(h.free) {
        assert h.free[n] !in h.free[..n];
      }
    }
  }
}
