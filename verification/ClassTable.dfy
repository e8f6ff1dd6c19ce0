/** The class table: recursive loading, and the layout of inherited fields. */
module ClassTable {
  import opened Wrappers
  import opened Seqs

  /** A field or method by name and descriptor. */
  type Key = (string, string)

  // ---- layout ----

  /** Keys with their positions; a key that occurs again moves to its last position. */
  function LastIndex(keys: seq<Key>): map<Key, nat> {
    if keys == [] then map[]
    else LastIndex(keys[..|keys| - 1])[keys[|keys| - 1] := |keys| - 1]
  }

  lemma {:induction false} LastIndexSound(keys: seq<Key>, k: Key)
    ensures k in LastIndex(keys) <==> k in keys
    ensures k in LastIndex(keys) ==> LastIndex(keys)[k] < |keys| && keys[LastIndex(keys)[k]] == k
    ensures k in LastIndex(keys) ==> forall j :: LastIndex(keys)[k] < j < |keys| ==> keys[j] != k
  {
    if keys != [] {
      var n := |keys| - 1;
      LastIndexSound(keys[..n], k);
      assert keys == keys[..n] + [keys[n]];
    }
  }

  /** Own fields come after the inherited ones. An inherited field keeps its offset unless
      it is declared again, and then it gets a new one. */
  lemma {:induction false} Inherited(base: seq<Key>, own: seq<Key>, k: Key)
    requires k in base
    ensures k in LastIndex(base) && k in LastIndex(base + own)
    ensures k !in own ==> LastIndex(base + own)[k] == LastIndex(base)[k]
    ensures k in own ==> LastIndex(base + own)[k] >= |base|
  {
    LastIndexSound(base, k);
    if own == [] {
      Empty(base);
    } else {
      var n := |own| - 1;
      assert (base + own)[..|base| + n] == base + own[..n];
      assert own == own[..n] + [own[n]];
      Inherited(base, own[..n], k);
    }
  }

  lemma LastIndexKeys(keys: seq<Key>)
    ensures LastIndex(keys).Keys == SetOf(keys)
  {
    forall k
      ensures k in LastIndex(keys) <==> k in keys
    {
      LastIndexSound(keys, k);
    }
  }

  /** `alloc_instance` gives an object one slot for every field, so every offset is in
      bounds. `new-instance` gives it one slot for every distinct field key: that is enough
      exactly when no field is declared again. */
  lemma NewInstanceFits(fields: seq<Key>)
    ensures (forall k :: k in LastIndex(fields) ==> LastIndex(fields)[k] < |LastIndex(fields)|)
       <==> Distinct(fields)
  {
    LastIndexKeys(fields);
    ElementCount(fields);
    assert |LastIndex(fields)| == |LastIndex(fields).Keys|;
    if Distinct(fields) {
      forall k | k in LastIndex(fields)
        ensures LastIndex(fields)[k] < |LastIndex(fields)|
      {
        LastIndexSound(fields, k);
      }
    } else {
      var last := fields[|fields| - 1];
      LastIndexSound(fields, last);
      assert LastIndex(fields)[last] == |fields| - 1;
    }
  }

  // ---- definitions ----

  datatype Def = Def(parent: Option<string>, interfaces: seq<string>, isInterface: bool,
                     fields: seq<Key>, methods: seq<Key>)

  /** What classes can be loaded from: dex definitions, shim definitions, the native methods
      of each class, and the array types that some dex names. */
  datatype Source = Source(defs: map<string, Def>, shims: map<string, Def>,
                           natives: string -> seq<Key>, typed: set<string>)

  const OBJECT := "Ljava/lang/Object;"
  const CLONEABLE := "Ljava/lang/Cloneable;"
  const SERIALIZABLE := "Ljava/io/Serializable;"

  predicate IsArray(desc: string) {
    desc != "" && desc[0] == '['
  }

  predicate Known(src: Source, desc: string) {
    desc in src.defs || desc in src.shims
  }

  /** The superclass a definition names. A dex class without one extends Object, unless it
      is Object. */
  function SuperDesc(src: Source, desc: string): Option<string>
    requires Known(src, desc)
  {
    if desc in src.defs then
      if src.defs[desc].parent.Some? then src.defs[desc].parent
      else if desc == OBJECT then None
      else Some(OBJECT)
    else src.shims[desc].parent
  }

  function InterfaceDescs(src: Source, desc: string): seq<string>
    requires Known(src, desc)
  {
    if desc in src.defs then src.defs[desc].interfaces else src.shims[desc].interfaces
  }

  predicate IsInterface(src: Source, desc: string)
    requires Known(src, desc)
  {
    if desc in src.defs then src.defs[desc].isInterface else src.shims[desc].isInterface
  }

  function OwnFields(src: Source, desc: string): seq<Key>
    requires Known(src, desc)
  {
    if desc in src.defs then src.defs[desc].fields else src.shims[desc].fields
  }

  /** Native entries fill the holes a dex class leaves; its own declarations win. */
  function WithNatives(methods: seq<Key>, natives: seq<Key>): seq<Key> {
    if natives == [] then methods
    else
      var before := WithNatives(methods, natives[..|natives| - 1]);
      var last := natives[|natives| - 1];
      if last in before then before else before + [last]
  }

  function MethodKeys(src: Source, desc: string): seq<Key>
    requires Known(src, desc)
  {
    if desc in src.defs then WithNatives(src.defs[desc].methods, src.natives(desc))
    else src.natives(desc)
  }

  /** The declared methods keep their slots, and every native entry has one. */
  lemma {:induction false} NativesFill(methods: seq<Key>, natives: seq<Key>, k: Key)
    ensures methods <= WithNatives(methods, natives)
    ensures k in WithNatives(methods, natives) <==> k in methods || k in natives
    ensures k in methods ==> k in LastIndex(methods) && k in LastIndex(WithNatives(methods, natives))
    ensures k in methods ==> LastIndex(WithNatives(methods, natives))[k] == LastIndex(methods)[k]
  {
    LastIndexSound(methods, k);
    LastIndexSound(WithNatives(methods, natives), k);
    if natives != [] {
      var n := |natives| - 1;
      var before := WithNatives(methods, natives[..n]);
      NativesFill(methods, natives[..n], k);
      assert natives == natives[..n] + [natives[n]];
      Parts(before, [natives[n]]);
    }
  }

  // ---- loaded classes ----

  datatype Class = Class(desc: string, superclass: Option<nat>, interfaces: seq<nat>, isInterface: bool,
                         elem: Option<string>, fields: seq<Key>, offsets: map<Key, nat>,
                         methods: seq<Key>, dispatch: map<Key, nat>)

  /** Parents have smaller ids. */
  predicate Descends(classes: seq<Class>, c: nat)
    requires c < |classes|
  {
    && (classes[c].superclass.Some? ==> classes[c].superclass.value < c)
    && forall k :: 0 <= k < |classes[c].interfaces| ==> classes[c].interfaces[k] < c
  }

  function BaseFields(classes: seq<Class>, parent: Option<nat>): seq<Key> {
    if parent.Some? && parent.value < |classes| then classes[parent.value].fields else []
  }

  predicate Named(classes: seq<Class>, ids: seq<nat>, descs: seq<string>) {
    && |ids| == |descs|
    && forall k :: 0 <= k < |ids| ==> ids[k] < |classes| && classes[ids[k]].desc == descs[k]
  }

  function Listed(parent: Option<nat>): seq<nat> {
    if parent.Some? then [parent.value] else []
  }

  function ListedDesc(parent: Option<string>): seq<string> {
    if parent.Some? then [parent.value] else []
  }

  /** A class mirrors its definition: its parents are the ones named there, and its fields
      are those of the superclass followed by its own. */
  ghost predicate Mirrors(src: Source, classes: seq<Class>, c: nat)
    requires c < |classes|
  {
    var k := classes[c];
    && Descends(classes, c)
    && k.offsets == LastIndex(k.fields)
    && k.dispatch == LastIndex(k.methods)
    && if IsArray(k.desc) then
         && k.superclass.Some?
         && Named(classes, Listed(k.superclass), [OBJECT])
         && Named(classes, k.interfaces, [CLONEABLE, SERIALIZABLE])
         && k.fields == [] && k.methods == [] && !k.isInterface
         && k.elem == (if k.desc[1..] in src.typed then Some(k.desc[1..]) else None)
       else
         && Known(src, k.desc) && k.elem == None && k.isInterface == IsInterface(src, k.desc)
         && Named(classes, Listed(k.superclass), ListedDesc(SuperDesc(src, k.desc)))
         && Named(classes, k.interfaces, InterfaceDescs(src, k.desc))
         && k.fields == BaseFields(classes, k.superclass) + OwnFields(src, k.desc)
         && k.methods == MethodKeys(src, k.desc)
  }

  ghost predicate AllMirror(src: Source, classes: seq<Class>) {
    forall c :: 0 <= c < |classes| ==> Mirrors(src, classes, c)
  }

  /** The classes of a list have the descriptors of another, one for one. */
  predicate Carry(classes: seq<Class>, ids: seq<nat>, descs: seq<string>) {
    |ids| == |descs| && forall n :: 0 <= n < |ids| ==> ids[n] < |classes| && classes[ids[n]].desc == descs[n]
  }

  /** A dex class as its definition declares it: the superclass that is named there, or Object;
      the interfaces in order; the superclass's fields, then its own; its own methods in their
      slots, and a slot for every native entry besides. */
  ghost predicate AsDexDeclares(src: Source, classes: seq<Class>, c: nat, d: Def)
    requires c < |classes|
  {
    var k := classes[c];
    && (k.superclass == None <==> d.parent == None && k.desc == "Ljava/lang/Object;")
    && (k.superclass.Some? ==>
          && k.superclass.value < c
          && classes[k.superclass.value].desc == (if d.parent.Some? then d.parent.value else "Ljava/lang/Object;")
          && k.fields == classes[k.superclass.value].fields + d.fields)
    && (k.superclass == None ==> k.fields == d.fields)
    && Carry(classes, k.interfaces, d.interfaces) && k.isInterface == d.isInterface && k.elem == None
    && d.methods <= k.methods
    && forall m :: m in k.dispatch <==> m in d.methods || m in src.natives(k.desc)
  }

  /** A shim class likewise; all its methods are native entries. */
  ghost predicate AsShimDeclares(src: Source, classes: seq<Class>, c: nat, d: Def)
    requires c < |classes|
  {
    var k := classes[c];
    && (k.superclass == None <==> d.parent == None)
    && (k.superclass.Some? ==>
          && k.superclass.value < c
          && Some(classes[k.superclass.value].desc) == d.parent
          && k.fields == classes[k.superclass.value].fields + d.fields)
    && (k.superclass == None ==> k.fields == d.fields)
    && Carry(classes, k.interfaces, d.interfaces) && k.isInterface == d.isInterface && k.elem == None
    && k.methods == src.natives(k.desc)
    && forall m :: m in k.dispatch <==> m in src.natives(k.desc)
  }

  /** An array class is below Object, Cloneable and Serializable, and has nothing of its own but
      its element type, which it keeps only if some dex names it. */
  ghost predicate IsArrayOf(src: Source, classes: seq<Class>, c: nat)
    requires c < |classes| && classes[c].desc != ""
  {
    var k := classes[c];
    && k.superclass.Some? && k.superclass.value < c && classes[k.superclass.value].desc == "Ljava/lang/Object;"
    && Carry(classes, k.interfaces, ["Ljava/lang/Cloneable;", "Ljava/io/Serializable;"])
    && k.fields == [] && k.methods == [] && k.dispatch == map[] && !k.isInterface
    && (k.elem.Some? <==> k.desc[1..] in src.typed) && (k.elem.Some? ==> k.elem.value == k.desc[1..])
  }

  /** Every class that has been loaded is as its definition declares it; a dex definition comes
      before a shim of the same name, and an array type before both. */
  lemma LoadedAsDeclared(src: Source, classes: seq<Class>, c: nat)
    requires AllMirror(src, classes) && c < |classes|
    ensures var desc := classes[c].desc;
      if desc != "" && desc[0] == '[' then IsArrayOf(src, classes, c)
      else if desc in src.defs then AsDexDeclares(src, classes, c, src.defs[desc])
      else desc in src.shims && AsShimDeclares(src, classes, c, src.shims[desc])
  {
    var k := classes[c];
    assert Mirrors(src, classes, c);
    assert k.superclass.Some? ==> Listed(k.superclass)[0] == k.superclass.value;
    LastIndexKeys(k.methods);
    if !IsArray(k.desc) && k.desc in src.defs {
      forall m
        ensures src.defs[k.desc].methods <= k.methods
        ensures m in k.dispatch <==> m in src.defs[k.desc].methods || m in src.natives(k.desc)
      {
        NativesFill(src.defs[k.desc].methods, src.natives(k.desc), m);
      }
      NativesFill(src.defs[k.desc].methods, src.natives(k.desc), ("", ""));
    }
  }

  /** A class keeps mirroring its definition when more classes are loaded. */
  lemma MirrorsMore(src: Source, classes: seq<Class>, more: seq<Class>, c: nat)
    requires c < |classes| && classes <= more && Mirrors(src, classes, c)
    ensures Mirrors(src, more, c)
  {
    assert forall k :: 0 <= k < |classes| ==> more[k] == classes[k];
  }

  lemma AllMirrorPush(src: Source, classes: seq<Class>, k: Class)
    requires AllMirror(src, classes) && Mirrors(src, classes + [k], |classes|)
    ensures AllMirror(src, classes + [k])
  {
    forall c | 0 <= c < |classes|
      ensures Mirrors(src, classes + [k], c)
    {
      MirrorsMore(src, classes, classes + [k], c);
    }
  }

  // ---- loading ----

  datatype LoadError = NotFound(desc: string) | Cyclic(desc: string)

  /** What a failed load names: a class that nothing defines, or one that is being loaded. */
  predicate Blames(src: Source, e: LoadError, loading: seq<string>) {
    match e
    case NotFound(d) => !IsArray(d) && d !in src.defs && d !in src.shims
    case Cyclic(d) => d in src.defs && d in loading
  }

  /** The dex classes that are not being loaded. */
  function Waiting(src: Source, loading: seq<string>): set<string> {
    set d | d in src.defs.Keys && d !in loading
  }

  lemma WaitingShrinks(src: Source, loading: seq<string>, desc: string)
    requires desc in src.defs && desc !in loading
    ensures |Waiting(src, loading + [desc])| < |Waiting(src, loading)|
  {
    assert Waiting(src, loading + [desc]) == Waiting(src, loading) - {desc};
  }

  function ParentDescs(src: Source, desc: string): seq<string>
    requires Known(src, desc)
  {
    ListedDesc(SuperDesc(src, desc)) + InterfaceDescs(src, desc)
  }

  /** Whether a descriptor is loaded from a dex definition. */
  predicate FromDex(src: Source, desc: string) {
    desc in src.defs && !IsArray(desc)
  }

  function Height(src: Source, rank: string -> nat, desc: string): nat {
    if FromDex(src, desc) then 0 else rank(desc) + 1
  }

  /** The shim table has no cycle of its own: every shim class ranks above those of its
      parents that are not loaded from a dex, and every array above the three classes that
      arrays extend. */
  ghost predicate Layered(src: Source, rank: string -> nat) {
    && (forall d, p :: d in src.shims && !FromDex(src, d) && !IsArray(d) && p in ParentDescs(src, d)
          ==> Height(src, rank, p) < Height(src, rank, d))
    && (forall d, p :: IsArray(d) && p in [OBJECT, CLONEABLE, SERIALIZABLE]
          ==> Height(src, rank, p) < Height(src, rank, d))
  }

  /** A height above those of all the given descriptors. */
  function Above(src: Source, rank: string -> nat, descs: seq<string>): (h: nat)
    ensures forall k :: 0 <= k < |descs| ==> Height(src, rank, descs[k]) < h
  {
    if descs == [] then 0
    else
      var rest, one := Above(src, rank, descs[..|descs| - 1]), Height(src, rank, descs[|descs| - 1]);
      if rest > one then rest else one + 1
  }

  /** All descriptors a class needs before it can be created. */
  function Needs(src: Source, desc: string): seq<string>
    requires IsArray(desc) || Known(src, desc)
  {
    if IsArray(desc) then [OBJECT, CLONEABLE, SERIALIZABLE] else ParentDescs(src, desc)
  }

  /** The hierarchy above a descriptor is fully known and ends within n levels. */
  ghost predicate Derivable(src: Source, desc: string, n: nat)
    decreases n
  {
    && n > 0
    && (IsArray(desc) || Known(src, desc))
    && forall k :: 0 <= k < |Needs(src, desc)| ==> Derivable(src, Needs(src, desc)[k], n - 1)
  }

  ghost predicate Grounded(src: Source, desc: string) {
    exists n :: Derivable(src, desc, n)
  }

  /** A hierarchy that none of the classes being loaded is part of. */
  ghost predicate Loadable(src: Source, loading: seq<string>, desc: string) {
    exists n :: Derivable(src, desc, n) && forall k :: 0 <= k < |loading| ==> !Derivable(src, loading[k], n)
  }

  lemma {:induction false} DerivableMore(src: Source, desc: string, n: nat)
    requires Derivable(src, desc, n)
    ensures Derivable(src, desc, n + 1)
    decreases n
  {
    forall k | 0 <= k < |Needs(src, desc)|
      ensures Derivable(src, Needs(src, desc)[k], n)
    {
      DerivableMore(src, Needs(src, desc)[k], n - 1);
    }
  }

  lemma {:induction false} Least(src: Source, desc: string, n: nat) returns (m: nat)
    requires Derivable(src, desc, n)
    ensures 0 < m <= n && Derivable(src, desc, m) && !Derivable(src, desc, m - 1)
    decreases n
  {
    if Derivable(src, desc, n - 1) {
      m := Least(src, desc, n - 1);
    } else {
      m := n;
    }
  }

  lemma {:induction false} NotDerivableLess(src: Source, desc: string, n: nat, m: nat)
    requires !Derivable(src, desc, n) && m <= n
    ensures !Derivable(src, desc, m)
    decreases n - m
  {
    if m < n {
      NotDerivableLess(src, desc, n, m + 1);
      if Derivable(src, desc, m) {
        DerivableMore(src, desc, m);
      }
    }
  }

  /** What a loadable class needs is loadable, also once the class itself is being loaded. */
  lemma NeedsLoadable(src: Source, loading: seq<string>, desc: string, k: nat)
    requires Loadable(src, loading, desc)
    ensures IsArray(desc) || Known(src, desc)
    ensures k < |Needs(src, desc)| ==> Loadable(src, loading + [desc], Needs(src, desc)[k])
    ensures k < |Needs(src, desc)| ==> Loadable(src, loading, Needs(src, desc)[k])
  {
    var n :| Derivable(src, desc, n) && forall j :: 0 <= j < |loading| ==> !Derivable(src, loading[j], n);
    var m := Least(src, desc, n);
    if k < |Needs(src, desc)| {
      assert Derivable(src, Needs(src, desc)[k], m - 1);
      var all := loading + [desc];
      forall j | 0 <= j < |all|
        ensures !Derivable(src, all[j], m - 1)
      {
        if j < |loading| {
          NotDerivableLess(src, loading[j], n, m - 1);
        }
      }
      assert forall j :: 0 <= j < |loading| ==> loading[j] == all[j];
    }
  }

  /** Whatever has been loaded has a hierarchy that is known and free of cycles. */
  lemma {:induction false} LoadedGrounded(src: Source, classes: seq<Class>, c: nat)
    requires AllMirror(src, classes) && c < |classes|
    ensures Derivable(src, classes[c].desc, c + 1)
    decreases c
  {
    var k := classes[c];
    assert Mirrors(src, classes, c);
    var ids := Listed(k.superclass) + k.interfaces;
    assert Named(classes, ids, Needs(src, k.desc));
    forall j | 0 <= j < |ids|
      ensures Derivable(src, Needs(src, k.desc)[j], c)
    {
      assert ids[j] < c;
      LoadedGrounded(src, classes, ids[j]);
      DerivableAtMost(src, classes[ids[j]].desc, ids[j] + 1, c);
    }
  }

  lemma {:induction false} DerivableAtMost(src: Source, desc: string, m: nat, n: nat)
    requires Derivable(src, desc, m) && m <= n
    ensures Derivable(src, desc, n)
    decreases n - m
  {
    if m < n {
      DerivableMore(src, desc, m);
      DerivableAtMost(src, desc, m + 1, n);
    }
  }

  ghost predicate AllLoadable(src: Source, loading: seq<string>, descs: seq<string>) {
    forall k :: 0 <= k < |descs| ==> Loadable(src, loading, descs[k])
  }

  /** The parents of a loadable class are loadable, also once the class itself is marked. */
  lemma PartsLoadable(src: Source, loading: seq<string>, desc: string)
    requires !IsArray(desc) && Known(src, desc)
    ensures Loadable(src, loading, desc) ==> desc !in loading
    ensures Loadable(src, loading, desc) ==> AllLoadable(src, loading, ParentDescs(src, desc))
    ensures Loadable(src, loading, desc) ==> AllLoadable(src, loading + [desc], ParentDescs(src, desc))
  {
    if Loadable(src, loading, desc) {
      var parents := ParentDescs(src, desc);
      forall k | 0 <= k < |parents|
        ensures Loadable(src, loading, parents[k]) && Loadable(src, loading + [desc], parents[k])
      {
        NeedsLoadable(src, loading, desc, k);
        assert Needs(src, desc)[k] == parents[k];
      }
    }
  }

  lemma LoadableSplit(src: Source, loading: seq<string>, first: seq<string>, second: seq<string>)
    ensures AllLoadable(src, loading, first + second)
        ==> AllLoadable(src, loading, first) && AllLoadable(src, loading, second)
  {
    if AllLoadable(src, loading, first + second) {
      assert forall k :: 0 <= k < |first| ==> first[k] == (first + second)[k];
      assert forall k :: 0 <= k < |second| ==> second[k] == (first + second)[|first| + k];
    }
  }

  /** Whatever is being loaded either is not grounded or depends on the class at hand. */
  ghost predicate Leads(src: Source, loading: seq<string>, desc: string) {
    forall k, n: nat :: 0 <= k < |loading| && Derivable(src, loading[k], n + 1) ==> Derivable(src, desc, n)
  }

  ghost predicate AllLead(src: Source, loading: seq<string>, descs: seq<string>) {
    forall k :: 0 <= k < |descs| ==> Leads(src, loading, descs[k])
  }

  /** No class whose loading has begun and not succeeded is grounded. */
  ghost predicate NoneGrounded(src: Source, loading: seq<string>) {
    forall k :: 0 <= k < |loading| ==> !Grounded(src, loading[k])
  }

  /** The classes marked since then are not grounded. */
  ghost predicate NewUngrounded(src: Source, before: seq<string>, loading: seq<string>) {
    before <= loading && forall k :: |before| <= k < |loading| ==> !Grounded(src, loading[k])
  }

  lemma UngroundedLead(src: Source, loading: seq<string>, desc: string)
    requires NoneGrounded(src, loading)
    ensures Leads(src, loading, desc)
  {
  }

  /** Nothing that depends on a grounded class can stand in the way of loading it. */
  lemma LeadsLoadable(src: Source, loading: seq<string>, desc: string)
    requires Leads(src, loading, desc) && Grounded(src, desc)
    ensures Loadable(src, loading, desc)
  {
    var n :| Derivable(src, desc, n);
    var m := Least(src, desc, n);
    var below: nat := m - 1;
    forall k | 0 <= k < |loading|
      ensures !Derivable(src, loading[k], below + 1)
    {
    }
  }

  /** What leads to a class leads to its parents, and so does the class itself. */
  lemma LeadsDown(src: Source, loading: seq<string>, desc: string, k: nat)
    requires (IsArray(desc) || Known(src, desc)) && Leads(src, loading, desc) && k < |Needs(src, desc)|
    ensures Leads(src, loading, Needs(src, desc)[k])
    ensures Leads(src, loading + [desc], Needs(src, desc)[k])
  {
    var need, all := Needs(src, desc)[k], loading + [desc];
    forall j, n: nat | 0 <= j < |all| && Derivable(src, all[j], n + 1)
      ensures Derivable(src, need, n)
    {
      if j < |loading| {
        assert Derivable(src, loading[j], n + 1) && Derivable(src, desc, n);
        assert Derivable(src, need, n - 1);
        DerivableMore(src, need, n - 1);
      } else {
        assert Derivable(src, desc, n + 1);
      }
    }
    assert forall j :: 0 <= j < |loading| ==> loading[j] == all[j];
  }

  lemma PartsLead(src: Source, loading: seq<string>, desc: string)
    requires IsArray(desc) || Known(src, desc)
    ensures Leads(src, loading, desc)
        ==> AllLead(src, loading, Needs(src, desc)) && AllLead(src, loading + [desc], Needs(src, desc))
  {
    if Leads(src, loading, desc) {
      forall k | 0 <= k < |Needs(src, desc)|
        ensures Leads(src, loading, Needs(src, desc)[k]) && Leads(src, loading + [desc], Needs(src, desc)[k])
      {
        LeadsDown(src, loading, desc, k);
      }
    }
  }

  lemma ArrayParts(src: Source, rank: string -> nat, loading: seq<string>, desc: string)
    requires IsArray(desc) && Layered(src, rank)
    ensures Loadable(src, loading, desc) ==> AllLoadable(src, loading, Needs(src, desc))
    ensures Leads(src, loading, desc) ==> AllLead(src, loading, Needs(src, desc))
    ensures forall k :: 0 <= k < |Needs(src, desc)| ==> Height(src, rank, Needs(src, desc)[k]) < Height(src, rank, desc)
  {
    PartsLead(src, loading, desc);
    if Loadable(src, loading, desc) {
      forall k | 0 <= k < |Needs(src, desc)|
        ensures Loadable(src, loading, Needs(src, desc)[k])
      {
        NeedsLoadable(src, loading, desc, k);
      }
    }
  }

  lemma LeadSplit(src: Source, loading: seq<string>, first: seq<string>, second: seq<string>)
    ensures AllLead(src, loading, first + second) ==> AllLead(src, loading, first) && AllLead(src, loading, second)
  {
    if AllLead(src, loading, first + second) {
      assert forall k :: 0 <= k < |first| ==> first[k] == (first + second)[k];
      assert forall k :: 0 <= k < |second| ==> second[k] == (first + second)[|first| + k];
    }
  }

  lemma NewNone(src: Source, loading: seq<string>)
    ensures NewUngrounded(src, loading, loading)
  {
  }

  /** The class itself, marked first, and what was marked after it. */
  lemma NewWith(src: Source, before: seq<string>, desc: string, loading: seq<string>)
    requires NewUngrounded(src, before + [desc], loading) && !Grounded(src, desc)
    ensures NewUngrounded(src, before, loading)
  {
    assert loading[|before|] == desc;
  }

  /** A class whose parents cannot be loaded. */
  lemma MarkedUngrounded(src: Source, before: seq<string>, desc: string, loading: seq<string>)
    requires !Loadable(src, before, desc)
    requires Leads(src, before, desc) ==> NewUngrounded(src, before + [desc], loading)
    ensures Leads(src, before, desc) ==> NewUngrounded(src, before, loading)
  {
    if Leads(src, before, desc) {
      if Grounded(src, desc) {
        LeadsLoadable(src, before, desc);
      }
      NewWith(src, before, desc, loading);
    }
  }

  lemma NoneStill(src: Source, before: seq<string>, loading: seq<string>)
    requires NoneGrounded(src, before) && NewUngrounded(src, before, loading)
    ensures NoneGrounded(src, loading)
  {
  }

  /** The loop over declared fields: offsets continue after the superclass's. */
  method AddFields(base: seq<Key>, own: seq<Key>) returns (fields: seq<Key>, offsets: map<Key, nat>)
    ensures fields == base + own && offsets == LastIndex(base + own)
  {
    fields, offsets := base, LastIndex(base);
    Empty(base);
    for i := 0 to |own|
      invariant fields == base + own[..i] && offsets == LastIndex(fields)
    {
      var off := |fields|;
      assert own[..i + 1] == own[..i] + [own[i]];
      Assoc(base, own[..i], [own[i]]);
      Parts(fields, [own[i]]);
      offsets := offsets[own[i] := off];
      fields := fields + [own[i]];
    }
    assert own[..|own|] == own;
  }

  /** The method loops: declared methods, then the native entries that fill holes. */
  method AddMethods(declared: seq<Key>, natives: seq<Key>) returns (methods: seq<Key>, dispatch: map<Key, nat>)
    ensures methods == WithNatives(declared, natives) && dispatch == LastIndex(methods)
  {
    methods, dispatch := AddFields([], declared);
    Empty(declared);
    for i := 0 to |natives|
      invariant methods == WithNatives(declared, natives[..i]) && dispatch == LastIndex(methods)
    {
      assert natives[..i + 1][..i] == natives[..i];
      LastIndexSound(methods, natives[i]);
      if natives[i] !in dispatch {
        var slot := |methods|;
        Parts(methods, [natives[i]]);
        dispatch := dispatch[natives[i] := slot];
        methods := methods + [natives[i]];
      }
    }
    assert natives[..|natives|] == natives;
  }

  /** Descriptors lead to classes of that descriptor; a class being loaded has no id yet; a
      dex class is loaded once. */
  ghost predicate NamesOk(src: Source, classes: seq<Class>, byDesc: map<string, nat>, loading: seq<string>) {
    && (forall d :: d in byDesc ==> byDesc[d] < |classes| && classes[byDesc[d]].desc == d)
    && (forall d :: d in loading ==> FromDex(src, d) && d !in byDesc)
    && forall c :: 0 <= c < |classes| && FromDex(src, classes[c].desc)
         ==> classes[c].desc in byDesc && byDesc[classes[c].desc] == c
  }

  lemma NamesPush(src: Source, classes: seq<Class>, byDesc: map<string, nat>,
                  loading: seq<string>, k: Class)
    requires NamesOk(src, classes, byDesc, loading) && !FromDex(src, k.desc)
    ensures NamesOk(src, classes + [k], byDesc[k.desc := |classes|], loading)
  {
  }

  lemma NamesBegin(src: Source, classes: seq<Class>, byDesc: map<string, nat>,
                   loading: seq<string>, desc: string)
    requires NamesOk(src, classes, byDesc, loading) && FromDex(src, desc) && desc !in byDesc
    ensures NamesOk(src, classes, byDesc, loading + [desc])
  {
  }

  lemma StillBegun(before: seq<string>, desc: string, loading: seq<string>)
    requires before + [desc] <= loading
    ensures before <= loading && desc in loading
  {
    assert loading[|before|] == desc;
  }

  lemma NamesPop(src: Source, classes: seq<Class>, byDesc: map<string, nat>,
                 loading: seq<string>, k: Class)
    requires NamesOk(src, classes, byDesc, loading + [k.desc]) && k.desc !in loading
    ensures k.desc !in byDesc
    ensures NamesOk(src, classes + [k], byDesc[k.desc := |classes|], loading)
  {
    assert k.desc in loading + [k.desc];
    assert forall d :: d in loading ==> d in loading + [k.desc];
  }

  class Loader {
    const src: Source
    ghost const rank: string -> nat
    var classes: seq<Class>
    var byDesc: map<string, nat>
    /** The dex classes whose loading has begun and not succeeded. */
    var loading: seq<string>

    ghost predicate Valid()
      reads this
    {
      Layered(src, rank) && AllMirror(src, classes) && NamesOk(src, classes, byDesc, loading)
    }

    /** Loading only adds: classes keep their ids, and descriptors their classes. */
    ghost predicate Extends(before: seq<Class>, names: map<string, nat>)
      reads this
    {
      before <= classes && forall d :: d in names ==> d in byDesc && byDesc[d] == names[d]
    }

    constructor (src: Source, ghost rank: string -> nat)
      requires Layered(src, rank)
      ensures Valid() && this.src == src && classes == [] && byDesc == map[] && loading == []
    {
      this.src, this.rank := src, rank;
      classes, byDesc, loading := [], map[], [];
    }

    /** `ensure_class_by_desc`. */
    method Ensure(desc: string) returns (r: Result<nat, LoadError>)
      requires Valid()
      modifies this
      ensures Valid() && Extends(old(classes), old(byDesc))
      ensures r.Ok? ==> loading == old(loading) && desc in byDesc && byDesc[desc] == r.value
      ensures r.Err? ==> old(loading) <= loading
      ensures r.Err? ==> Blames(src, r.error, loading)
      ensures Loadable(src, old(loading), desc) ==> r.Ok?
      ensures Leads(src, old(loading), desc) ==> NewUngrounded(src, old(loading), loading)
      ensures r.Ok? ==> Grounded(src, desc)
      ensures NoneGrounded(src, old(loading)) ==> NoneGrounded(src, loading) && (r.Ok? <==> Grounded(src, desc))
      ensures desc in old(loading) ==> r == Err(Cyclic(desc))
      ensures desc !in old(byDesc) && !IsArray(desc) && !Known(src, desc) ==> r == Err(NotFound(desc))
      ensures r.Err? && FromDex(src, desc) ==> desc in loading
      decreases |Waiting(src, loading)|, Height(src, rank, desc), 3
    {
      NewNone(src, loading);
      if desc in byDesc {
        LoadedGrounded(src, classes, byDesc[desc]);
        return Ok(byDesc[desc]);
      }
      if IsArray(desc) {
        r := LoadArray(desc);
      } else if desc in src.defs {
        r := LoadDex(desc);
      } else if desc in src.shims {
        r := LoadShim(desc);
      } else {
        r := Err(NotFound(desc));
      }
      if r.Ok? {
        LoadedGrounded(src, classes, r.value);
      }
      if NoneGrounded(src, old(loading)) {
        UngroundedLead(src, old(loading), desc);
        NoneStill(src, old(loading), loading);
        if Grounded(src, desc) {
          LeadsLoadable(src, old(loading), desc);
        }
      }
    }

    /** The loop over interface types. */
    method EnsureAll(descs: seq<string>, ghost h: nat) returns (r: Result<seq<nat>, LoadError>)
      requires Valid()
      requires forall k :: 0 <= k < |descs| ==> Height(src, rank, descs[k]) < h
      modifies this
      ensures Valid() && Extends(old(classes), old(byDesc))
      ensures r.Ok? ==> loading == old(loading) && Named(classes, r.value, descs)
      ensures r.Err? ==> old(loading) <= loading
      ensures r.Err? ==> Blames(src, r.error, loading)
      ensures AllLoadable(src, old(loading), descs) ==> r.Ok?
      ensures AllLead(src, old(loading), descs) ==> NewUngrounded(src, old(loading), loading)
      decreases |Waiting(src, loading)|, h, 0
    {
      var ids: seq<nat> := [];
      NewNone(src, loading);
      for k := 0 to |descs|
        invariant Valid() && Extends(old(classes), old(byDesc)) && loading == old(loading)
        invariant Named(classes, ids, descs[..k])
      {
        ghost var before := classes;
        var c := Ensure(descs[k]);
        if c.Err? {
          return Err(c.error);
        }
        NamedMore(before, classes, ids, descs[..k]);
        NamedSnoc(classes, ids, descs[..k], c.value, descs[k]);
        assert descs[..k + 1] == descs[..k] + [descs[k]];
        ids := ids + [c.value];
      }
      assert descs[..|descs|] == descs;
      r := Ok(ids);
    }

    /** Pushes the class, then fills in its layout. */
    method Define(desc: string, superclass: Option<nat>, interfaces: seq<nat>, isInterface: bool,
                  own: seq<Key>, methods: seq<Key>, dispatch: map<Key, nat>)
      returns (id: nat)
      requires AllMirror(src, classes) && !IsArray(desc) && Known(src, desc)
      requires Named(classes, Listed(superclass), ListedDesc(SuperDesc(src, desc)))
      requires Named(classes, interfaces, InterfaceDescs(src, desc))
      requires isInterface == IsInterface(src, desc)
      requires own == OwnFields(src, desc) && methods == MethodKeys(src, desc) && dispatch == LastIndex(methods)
      modifies this`classes, this`byDesc
      ensures AllMirror(src, classes) && old(classes) <= classes
      ensures id == old(|classes|) && |classes| == id + 1 && classes[id].desc == desc
      ensures classes == old(classes) + [classes[id]]
      ensures byDesc == old(byDesc)[desc := id]
    {
      id := |classes|;
      assert superclass.Some? ==> Listed(superclass)[0] < |classes|;
      var base := if superclass.Some? then classes[superclass.value].fields else [];
      classes := classes + [Class(desc, superclass, interfaces, isInterface, None, [], map[], [], map[])];
      byDesc := byDesc[desc := id];
      var fields, offsets := AddFields(base, own);
      var k := Class(desc, superclass, interfaces, isInterface, None, fields, offsets, methods, dispatch);
      classes := classes[id := k];
      assert classes == old(classes) + [k];
      DefinedMirrors(src, old(classes), k);
      AllMirrorPush(src, old(classes), k);
    }

    /** `array_class`. */
    method LoadArray(desc: string) returns (r: Result<nat, LoadError>)
      requires Valid() && IsArray(desc) && desc !in byDesc
      modifies this
      ensures Valid() && Extends(old(classes), old(byDesc))
      ensures r.Ok? ==> loading == old(loading) && desc in byDesc && byDesc[desc] == r.value
      ensures r.Err? ==> old(loading) <= loading
      ensures r.Err? ==> Blames(src, r.error, loading)
      ensures Loadable(src, old(loading), desc) ==> r.Ok?
      ensures Leads(src, old(loading), desc) ==> NewUngrounded(src, old(loading), loading)
      decreases |Waiting(src, loading)|, Height(src, rank, desc), 2
    {
      ArrayParts(src, rank, loading, desc);
      NewNone(src, loading);
      var parents := EnsureAll(Needs(src, desc), Height(src, rank, desc));
      if parents.Err? {
        return Err(parents.error);
      }
      var id := SynthArray(desc, parents.value);
      r := Ok(id);
    }

    /** `synth_array_class`: a class above Object and the two interfaces, which keeps the
        element type when some dex names it. */
    method SynthArray(desc: string, ids: seq<nat>) returns (id: nat)
      requires Valid() && IsArray(desc) && Named(classes, ids, Needs(src, desc))
      modifies this`classes, this`byDesc
      ensures Valid() && old(classes) <= classes && byDesc == old(byDesc)[desc := id]
    {
      id := |classes|;
      var elem := if desc[1..] in src.typed then Some(desc[1..]) else None;
      var k := Class(desc, Some(ids[0]), [ids[1], ids[2]], false, elem, [], map[], [], map[]);
      ArrayMirrors(src, classes, k, ids);
      AllMirrorPush(src, classes, k);
      NamesPush(src, classes, byDesc, loading, k);
      classes := classes + [k];
      byDesc := byDesc[desc := id];
    }

    /** The superclass, then the interfaces. */
    method LoadParents(desc: string, ghost h: nat) returns (r: Result<(Option<nat>, seq<nat>), LoadError>)
      requires Valid() && !IsArray(desc) && Known(src, desc)
      requires forall k :: 0 <= k < |ParentDescs(src, desc)| ==> Height(src, rank, ParentDescs(src, desc)[k]) < h
      modifies this
      ensures Valid() && Extends(old(classes), old(byDesc))
      ensures r.Ok? ==> loading == old(loading)
      ensures r.Ok? ==> Named(classes, Listed(r.value.0), ListedDesc(SuperDesc(src, desc)))
      ensures r.Ok? ==> Named(classes, r.value.1, InterfaceDescs(src, desc))
      ensures r.Err? ==> old(loading) <= loading
      ensures r.Err? ==> Blames(src, r.error, loading)
      ensures AllLoadable(src, old(loading), ParentDescs(src, desc)) ==> r.Ok?
      ensures AllLead(src, old(loading), ParentDescs(src, desc)) ==> NewUngrounded(src, old(loading), loading)
      decreases |Waiting(src, loading)|, h, 1
    {
      var first, second := ListedDesc(SuperDesc(src, desc)), InterfaceDescs(src, desc);
      assert ParentDescs(src, desc) == first + second;
      HeightsSplit(src, rank, first, second, h);
      LoadableSplit(src, loading, first, second);
      LeadSplit(src, loading, first, second);
      NewNone(src, loading);
      var parent := EnsureAll(first, h);
      if parent.Err? {
        return Err(parent.error);
      }
      ghost var before := classes;
      var interfaces := EnsureAll(second, h);
      if interfaces.Err? {
        return Err(interfaces.error);
      }
      NamedMore(before, classes, parent.value, first);
      var superclass := if |parent.value| > 0 then Some(parent.value[0]) else None;
      assert Listed(superclass) == parent.value;
      r := Ok((superclass, interfaces.value));
    }

    /** `load_shim_class`. */
    method LoadShim(desc: string) returns (r: Result<nat, LoadError>)
      requires Valid() && !IsArray(desc) && desc !in src.defs && desc in src.shims && desc !in byDesc
      modifies this
      ensures Valid() && Extends(old(classes), old(byDesc))
      ensures r.Ok? ==> loading == old(loading) && desc in byDesc && byDesc[desc] == r.value
      ensures r.Err? ==> old(loading) <= loading
      ensures r.Err? ==> Blames(src, r.error, loading)
      ensures Loadable(src, old(loading), desc) ==> r.Ok?
      ensures Leads(src, old(loading), desc) ==> NewUngrounded(src, old(loading), loading)
      decreases |Waiting(src, loading)|, Height(src, rank, desc), 2
    {
      PartsLoadable(src, loading, desc);
      PartsLead(src, loading, desc);
      NewNone(src, loading);
      var def := src.shims[desc];
      var parents := LoadParents(desc, Height(src, rank, desc));
      if parents.Err? {
        return Err(parents.error);
      }
      var methods, dispatch := AddFields([], src.natives(desc));
      Empty(src.natives(desc));
      ghost var was, names := classes, byDesc;
      var id := Define(desc, parents.value.0, parents.value.1, def.isInterface, def.fields, methods, dispatch);
      NamesPush(src, was, names, loading, classes[id]);
      r := Ok(id);
    }

    /** `load_dex_class`. A failed load leaves its class marked as being loaded. */
    method LoadDex(desc: string) returns (r: Result<nat, LoadError>)
      requires Valid() && FromDex(src, desc) && desc !in byDesc
      modifies this
      ensures Valid() && Extends(old(classes), old(byDesc))
      ensures r.Ok? ==> loading == old(loading) && desc in byDesc && byDesc[desc] == r.value
      ensures r.Err? ==> old(loading) <= loading && desc in loading
      ensures r.Err? ==> Blames(src, r.error, loading)
      ensures desc in old(loading) ==> r == Err(Cyclic(desc))
      ensures Loadable(src, old(loading), desc) ==> r.Ok?
      ensures Leads(src, old(loading), desc) ==> NewUngrounded(src, old(loading), loading)
      decreases |Waiting(src, loading)|, Height(src, rank, desc), 2
    {
      PartsLoadable(src, loading, desc);
      PartsLead(src, loading, desc);
      NewNone(src, loading);
      if desc in loading {
        return Err(Cyclic(desc));
      }
      WaitingShrinks(src, loading, desc);
      NamesBegin(src, classes, byDesc, loading, desc);
      loading := loading + [desc];
      var parents := LoadParents(desc, Above(src, rank, ParentDescs(src, desc)));
      if parents.Err? {
        StillBegun(old(loading), desc, loading);
        MarkedUngrounded(src, old(loading), desc, loading);
        return Err(parents.error);
      }
      var id := DefineDex(desc, parents.value.0, parents.value.1, old(loading));
      r := Ok(id);
    }

    /** The rest of `load_dex_class`: the class is defined and no longer being loaded. */
    method DefineDex(desc: string, superclass: Option<nat>, interfaces: seq<nat>, ghost before: seq<string>)
      returns (id: nat)
      requires Valid() && FromDex(src, desc) && loading == before + [desc] && desc !in before
      requires Named(classes, Listed(superclass), ListedDesc(SuperDesc(src, desc)))
      requires Named(classes, interfaces, InterfaceDescs(src, desc))
      modifies this
      ensures Valid() && old(classes) <= classes && loading == before
      ensures desc !in old(byDesc) && byDesc == old(byDesc)[desc := id]
    {
      var def := src.defs[desc];
      var methods, dispatch := AddMethods(def.methods, src.natives(desc));
      ghost var was, names := classes, byDesc;
      id := Define(desc, superclass, interfaces, def.isInterface, def.fields, methods, dispatch);
      Parts(before, [desc]);
      NamesPop(src, was, names, before, classes[id]);
      loading := loading[..|loading| - 1];
    }
  }

  lemma HeightsSplit(src: Source, rank: string -> nat, first: seq<string>, second: seq<string>,
                     h: nat)
    requires forall k :: 0 <= k < |first + second| ==> Height(src, rank, (first + second)[k]) < h
    ensures forall k :: 0 <= k < |first| ==> Height(src, rank, first[k]) < h
    ensures forall k :: 0 <= k < |second| ==> Height(src, rank, second[k]) < h
  {
    assert forall k :: 0 <= k < |first| ==> first[k] == (first + second)[k];
    assert forall k :: 0 <= k < |second| ==> second[k] == (first + second)[|first| + k];
  }

  lemma DefinedMirrors(src: Source, classes: seq<Class>, k: Class)
    requires !IsArray(k.desc) && Known(src, k.desc) && k.elem == None && k.isInterface == IsInterface(src, k.desc)
    requires Named(classes, Listed(k.superclass), ListedDesc(SuperDesc(src, k.desc)))
    requires Named(classes, k.interfaces, InterfaceDescs(src, k.desc))
    requires k.fields == BaseFields(classes, k.superclass) + OwnFields(src, k.desc)
    requires k.methods == MethodKeys(src, k.desc)
    requires k.offsets == LastIndex(k.fields) && k.dispatch == LastIndex(k.methods)
    ensures Mirrors(src, classes + [k], |classes|)
  {
    NamedMore(classes, classes + [k], Listed(k.superclass), ListedDesc(SuperDesc(src, k.desc)));
    NamedMore(classes, classes + [k], k.interfaces, InterfaceDescs(src, k.desc));
    assert k.superclass.Some? ==> Listed(k.superclass)[0] == k.superclass.value;
  }

  lemma ArrayMirrors(src: Source, classes: seq<Class>, k: Class, ids: seq<nat>)
    requires IsArray(k.desc) && Named(classes, ids, [OBJECT, CLONEABLE, SERIALIZABLE])
    requires k.superclass == Some(ids[0]) && k.interfaces == [ids[1], ids[2]]
    requires k.fields == [] && k.methods == [] && k.offsets == map[] && k.dispatch == map[] && !k.isInterface
    requires k.elem == (if k.desc[1..] in src.typed then Some(k.desc[1..]) else None)
    ensures Mirrors(src, classes + [k], |classes|)
  {
    var more := classes + [k];
    NamedMore(classes, more, ids, [OBJECT, CLONEABLE, SERIALIZABLE]);
    assert Named(more, [ids[0]], [OBJECT]);
    assert Named(more, [ids[1], ids[2]], [CLONEABLE, SERIALIZABLE]);
  }

  lemma NamedMore(classes: seq<Class>, more: seq<Class>, ids: seq<nat>, descs: seq<string>)
    requires classes <= more && Named(classes, ids, descs)
    ensures Named(more, ids, descs)
  {
    assert forall k :: 0 <= k < |classes| ==> more[k] == classes[k];
  }

  lemma NamedSnoc(classes: seq<Class>, ids: seq<nat>, descs: seq<string>, id: nat, desc: string)
    requires Named(classes, ids, descs) && id < |classes| && classes[id].desc == desc
    ensures Named(classes, ids + [id], descs + [desc])
  {
  }
}
