/** Batch keys and the coalescing of requests into bounded, homogeneous batches. */
module BatchCoalescer {
  import opened Prelude
  import opened Lists
  import opened CanonicalJson
  import Strings = ShadowSafe

  datatype Request<T> = Request(provider: string, operation: string, input: T)

  datatype Capability = Capability(maxBatchSize: int, utilization: real, keyFields: seq<string>)

  datatype Batch<T> = Batch(provider: string, operation: string, key: string, items: seq<Request<T>>)

  // --- keys -------------------------------------------------------------------------------------

  /** `Object.fromEntries` over the key fields: a repeated field is set once. */
  function FieldMembers(read: string -> Json, fields: seq<string>): (r: Members)
    ensures forall f :: f in Keys(r) <==> f in fields
    decreases |fields|
  {
    if fields == [] then End
    else
      var rest := FieldMembers(read, fields[1..]);
      if fields[0] in fields[1..] then rest else Member(fields[0], read(fields[0]), rest)
  }

  /** The object a batch key is the canonical text of. */
  function KeyObject(provider: string, operation: string, read: string -> Json, fields: seq<string>): Json {
    Obj(Member("provider", Str(provider), Member("operation", Str(operation), Member("fields", Obj(FieldMembers(read, fields)), End))))
  }

  /** `deterministicBatchKey`; `read` is the property read of the request's input. */
  function BatchKey<T>(read: (T, string) -> Json, request: Request<T>, fields: seq<string>): string {
    Canonical(KeyObject(request.provider, request.operation, f => read(request.input, f), fields))
  }

  lemma {:induction false} FieldMembersMeaning(read: string -> Json, fields: seq<string>)
    requires forall f :: f in fields ==> WellFormed(read(f))
    ensures WellFormedMembers(FieldMembers(read, fields))
    ensures forall f :: f in fields ==> MeaningMembers(FieldMembers(read, fields))[f] == Meaning(read(f))
    decreases |fields|
  {
    if fields != [] {
      FieldMembersMeaning(read, fields[1..]);
      assert fields == [fields[0]] + fields[1..];
    }
  }

  function KeyValue(provider: Value, operation: Value, fields: Value): Value {
    VObj(map["fields" := fields]["operation" := operation]["provider" := provider])
  }

  lemma KeyObjectMeaning(provider: string, operation: string, read: string -> Json, fields: seq<string>)
    requires forall f :: f in fields ==> WellFormed(read(f))
    ensures WellFormed(KeyObject(provider, operation, read, fields))
    ensures Meaning(KeyObject(provider, operation, read, fields))
         == KeyValue(VStr(provider), VStr(operation), VObj(MeaningMembers(FieldMembers(read, fields))))
  {
    FieldMembersMeaning(read, fields);
    assert |"provider"| == 8 && |"operation"| == 9 && |"fields"| == 6;
    ThreeMembers("provider", Str(provider), "operation", Str(operation), "fields", Obj(FieldMembers(read, fields)));
  }

  lemma ThreeMembers(k1: string, v1: Json, k2: string, v2: Json, k3: string, v3: Json)
    requires k1 != k2 && k1 != k3 && k2 != k3 && WellFormed(v1) && WellFormed(v2) && WellFormed(v3)
    ensures WellFormedMembers(Member(k1, v1, Member(k2, v2, Member(k3, v3, End))))
    ensures MeaningMembers(Member(k1, v1, Member(k2, v2, Member(k3, v3, End))))
         == map[k3 := Meaning(v3)][k2 := Meaning(v2)][k1 := Meaning(v1)]
  {
    var inner := Member(k3, v3, End);
    LastMember(k3, v3);
    MoreMember(k2, v2, inner);
    MoreMember(k1, v1, Member(k2, v2, inner));
  }

  lemma LastMember(k: string, v: Json)
    requires WellFormed(v)
    ensures WellFormedMembers(Member(k, v, End)) && MeaningMembers(Member(k, v, End)) == map[k := Meaning(v)]
  {
    assert MeaningMembers(End) == map[];
  }

  lemma MoreMember(k: string, v: Json, rest: Members)
    requires WellFormed(v) && WellFormedMembers(rest) && k !in MeaningMembers(rest)
    ensures WellFormedMembers(Member(k, v, rest)) && MeaningMembers(Member(k, v, rest)) == MeaningMembers(rest)[k := Meaning(v)]
  {
  }

  lemma FieldsAgreeIff(ra: string -> Json, rb: string -> Json, fields: seq<string>)
    requires forall f :: f in fields ==> WellFormed(ra(f)) && WellFormed(rb(f))
    ensures MeaningMembers(FieldMembers(ra, fields)) == MeaningMembers(FieldMembers(rb, fields))
       <==> forall f :: f in fields ==> Meaning(ra(f)) == Meaning(rb(f))
  {
    FieldMembersMeaning(ra, fields);
    FieldMembersMeaning(rb, fields);
    MapsAgreeIff(MeaningMembers(FieldMembers(ra, fields)), MeaningMembers(FieldMembers(rb, fields)), fields);
  }

  lemma MapsAgreeIff(a: map<string, Value>, b: map<string, Value>, fields: seq<string>)
    requires (forall f :: f in a.Keys <==> f in fields) && (forall f :: f in b.Keys <==> f in fields)
    ensures a == b <==> forall f :: f in fields ==> a[f] == b[f]
  {
    if forall f :: f in fields ==> a[f] == b[f] {
      assert a.Keys == b.Keys;
      assert forall f :: f in a ==> a[f] == b[f];
    }
  }

  /** Requests share a batch key exactly when provider, operation and every key field mean the same. */
  lemma SameBatchKeyIff<T>(read: (T, string) -> Json, a: Request<T>, b: Request<T>, fields: seq<string>)
    requires forall f :: f in fields ==> WellFormed(read(a.input, f)) && WellFormed(read(b.input, f))
    ensures BatchKey(read, a, fields) == BatchKey(read, b, fields)
       <==> && a.provider == b.provider && a.operation == b.operation
            && forall f :: f in fields ==> Meaning(read(a.input, f)) == Meaning(read(b.input, f))
  {
    var ra, rb := f => read(a.input, f), f => read(b.input, f);
    KeyObjectMeaning(a.provider, a.operation, ra, fields);
    KeyObjectMeaning(b.provider, b.operation, rb, fields);
    var ka, kb := KeyObject(a.provider, a.operation, ra, fields), KeyObject(b.provider, b.operation, rb, fields);
    CanonicalIff(ka, kb);
    FieldsAgreeIff(ra, rb, fields);
    var ma, mb := MeaningMembers(FieldMembers(ra, fields)), MeaningMembers(FieldMembers(rb, fields));
    ThreeFields(VStr(a.provider), VStr(a.operation), VObj(ma), VStr(b.provider), VStr(b.operation), VObj(mb));
  }

  lemma ThreeFields(p: Value, o: Value, f: Value, p': Value, o': Value, f': Value)
    ensures KeyValue(p, o, f) == KeyValue(p', o', f') <==> p == p' && o == o' && f == f'
  {
    assert |"provider"| == 8 && |"operation"| == 9 && |"fields"| == 6;
    var a, b := KeyValue(p, o, f).members, KeyValue(p', o', f').members;
    assert a["provider"] == p && a["operation"] == o && a["fields"] == f;
    assert b["provider"] == p' && b["operation"] == o' && b["fields"] == f';
  }

  // --- what coalescing returns ------------------------------------------------------------------

  /** The requests with one key, in arrival order. */
  function Filter<T>(requests: seq<Request<T>>, keyOf: Request<T> -> string, key: string): seq<Request<T>> {
    if requests == [] then []
    else
      var last := requests[|requests| - 1];
      Filter(requests[..|requests| - 1], keyOf, key) + if keyOf(last) == key then [last] else []
  }

  function BatchOf<T>(key: string, items: seq<Request<T>>): Batch<T>
    requires items != []
  {
    Batch(items[0].provider, items[0].operation, key, items)
  }

  /** A group cut into pieces of the safe size. */
  function GroupBatches<T>(key: string, group: seq<Request<T>>, size: nat): seq<Batch<T>>
    requires size > 0
    decreases |group|
  {
    if group == [] then []
    else if |group| <= size then [BatchOf(key, group)]
    else [BatchOf(key, group[..size])] + GroupBatches(key, group[size..], size)
  }

  /** All batches, group by group in the order of `keys`. */
  function Batches<T>(requests: seq<Request<T>>, keyOf: Request<T> -> string, keys: seq<string>, size: nat): seq<Batch<T>>
    requires size > 0
  {
    if keys == [] then []
    else
      var last := keys[|keys| - 1];
      Batches(requests, keyOf, keys[..|keys| - 1], size) + GroupBatches(last, Filter(requests, keyOf, last), size)
  }

  /** Items of all batches, in order. */
  function Flatten<T>(batches: seq<Batch<T>>): seq<Request<T>> {
    if batches == [] then [] else batches[0].items + Flatten(batches[1..])
  }

  /** The batches with one key, in order. */
  function Under<T>(batches: seq<Batch<T>>, key: string): seq<Batch<T>> {
    if batches == [] then []
    else OnlyIf(batches[0], key) + Under(batches[1..], key)
  }

  // --- one group --------------------------------------------------------------------------------

  lemma {:induction false} FlattenConcat<T>(a: seq<Batch<T>>, b: seq<Batch<T>>)
    ensures Flatten(a + b) == Flatten(a) + Flatten(b)
    decreases |a|
  {
    if a == [] {
      assert a + b == b;
    } else {
      FlattenConcat(a[1..], b);
      assert (a + b)[1..] == a[1..] + b;
    }
  }

  lemma Associate<X>(a: seq<X>, b: seq<X>, c: seq<X>)
    ensures (a + b) + c == a + (b + c)
  {
  }

  function OnlyIf<T>(batch: Batch<T>, key: string): seq<Batch<T>> { if batch.key == key then [batch] else [] }

  lemma {:induction false} UnderConcat<T>(a: seq<Batch<T>>, b: seq<Batch<T>>, key: string)
    ensures Under(a + b, key) == Under(a, key) + Under(b, key)
    decreases |a|
  {
    if a == [] {
      assert a + b == b;
    } else {
      UnderConcat(a[1..], b, key);
      assert a == [a[0]] + a[1..];
      Associate([a[0]], a[1..], b);
      UnderCons(a[0], a[1..], key);
      UnderCons(a[0], a[1..] + b, key);
      Associate(OnlyIf(a[0], key), Under(a[1..], key), Under(b, key));
    }
  }

  lemma UnderCons<T>(batch: Batch<T>, rest: seq<Batch<T>>, key: string)
    ensures Under([batch] + rest, key) == OnlyIf(batch, key) + Under(rest, key)
  {
    assert ([batch] + rest)[1..] == rest;
  }

  lemma FlattenOne<T>(batch: Batch<T>)
    ensures Flatten([batch]) == batch.items
  {
    assert [batch][1..] == [];
  }

  lemma UnderOne<T>(batch: Batch<T>, key: string)
    ensures Under([batch], key) == if batch.key == key then [batch] else []
  {
    assert [batch][1..] == [];
  }

  /** Nothing of a group is lost or reordered by cutting it. */
  lemma {:induction false} FlattenGroup<T>(key: string, group: seq<Request<T>>, size: nat)
    requires size > 0
    ensures Flatten(GroupBatches(key, group, size)) == group
    decreases |group|
  {
    if 0 < |group| <= size {
      FlattenOne(BatchOf(key, group));
    } else if |group| > size {
      var first, rest := BatchOf(key, group[..size]), GroupBatches(key, group[size..], size);
      FlattenGroup(key, group[size..], size);
      FlattenConcat([first], rest);
      FlattenOne(first);
      assert group == group[..size] + group[size..];
    }
  }

  lemma {:induction false} UnderGroup<T>(group: string, items: seq<Request<T>>, size: nat, key: string)
    requires size > 0
    ensures Under(GroupBatches(group, items, size), key) == if key == group then GroupBatches(group, items, size) else []
    decreases |items|
  {
    if 0 < |items| <= size {
      UnderOne(BatchOf(group, items), key);
    } else if |items| > size {
      UnderGroup(group, items[size..], size, key);
      UnderConcat([BatchOf(group, items[..size])], GroupBatches(group, items[size..], size), key);
      UnderOne(BatchOf(group, items[..size]), key);
    }
  }

  /** What one batch of a group looks like. */
  ghost predicate FromGroup<T>(batch: Batch<T>, key: string, group: seq<Request<T>>, size: nat) {
    batch.items != [] && batch == BatchOf(key, batch.items) && |batch.items| <= size && forall x :: x in batch.items ==> x in group
  }

  /** Every batch of a group is full except possibly the last. */
  lemma {:induction false} GroupSizes<T>(key: string, group: seq<Request<T>>, size: nat, i: nat)
    requires size > 0 && i < |GroupBatches(key, group, size)|
    ensures FromGroup(GroupBatches(key, group, size)[i], key, group, size)
    ensures i < |GroupBatches(key, group, size)| - 1 ==> |GroupBatches(key, group, size)[i].items| == size
    decreases |group|
  {
    if |group| > size && i > 0 {
      GroupSizes(key, group[size..], size, i - 1);
    }
  }

  // --- all groups -------------------------------------------------------------------------------

  lemma LastIsNew(keys: seq<string>)
    requires Distinct(keys) && keys != []
    ensures var init, last := keys[..|keys| - 1], keys[|keys| - 1];
            Distinct(init) && last !in init && forall k :: k in keys <==> k in init || k == last
  {
    assert keys == keys[..|keys| - 1] + [keys[|keys| - 1]];
  }

  lemma {:induction false} BatchesOfKey<T>(requests: seq<Request<T>>, keyOf: Request<T> -> string, keys: seq<string>, size: nat, key: string)
    requires size > 0 && Distinct(keys)
    ensures key in keys ==> Under(Batches(requests, keyOf, keys, size), key) == GroupBatches(key, Filter(requests, keyOf, key), size)
    ensures key !in keys ==> Under(Batches(requests, keyOf, keys, size), key) == []
    decreases |keys|
  {
    if keys != [] {
      var init, last := keys[..|keys| - 1], keys[|keys| - 1];
      LastIsNew(keys);
      BatchesOfKey(requests, keyOf, init, size, key);
      UnderStep(Batches(requests, keyOf, init, size), last, Filter(requests, keyOf, last), size, key);
    }
  }

  lemma UnderStep<T>(before: seq<Batch<T>>, last: string, group: seq<Request<T>>, size: nat, key: string)
    requires size > 0
    ensures Under(before + GroupBatches(last, group, size), key)
         == Under(before, key) + if key == last then GroupBatches(last, group, size) else []
  {
    UnderConcat(before, GroupBatches(last, group, size), key);
    UnderGroup(last, group, size, key);
  }

  /** The batches of one key hold exactly its requests in arrival order, all full except the last. */
  lemma GroupShape<T>(requests: seq<Request<T>>, keyOf: Request<T> -> string, keys: seq<string>, size: nat, key: string)
    requires size > 0 && Distinct(keys) && key in keys
    ensures Flatten(Under(Batches(requests, keyOf, keys, size), key)) == Filter(requests, keyOf, key)
    ensures AllFullButLast(Under(Batches(requests, keyOf, keys, size), key), size)
  {
    var group := Filter(requests, keyOf, key);
    BatchesOfKey(requests, keyOf, keys, size, key);
    FlattenGroup(key, group, size);
    forall i | 0 <= i < |GroupBatches(key, group, size)| - 1 ensures |GroupBatches(key, group, size)[i].items| == size {
      GroupSizes(key, group, size, i);
    }
  }

  predicate AllFullButLast<T>(batches: seq<Batch<T>>, size: nat) {
    forall i :: 0 <= i < |batches| - 1 ==> |batches[i].items| == size
  }

  lemma {:induction false} FilterCount<T>(requests: seq<Request<T>>, keyOf: Request<T> -> string, key: string, r: Request<T>)
    ensures multiset(Filter(requests, keyOf, key))[r] == if keyOf(r) == key then multiset(requests)[r] else 0
    decreases |requests|
  {
    if requests != [] {
      FilterCount(requests[..|requests| - 1], keyOf, key, r);
      assert requests == requests[..|requests| - 1] + [requests[|requests| - 1]];
    }
  }

  lemma {:induction false} FlattenCount<T>(requests: seq<Request<T>>, keyOf: Request<T> -> string, keys: seq<string>, size: nat, r: Request<T>)
    requires size > 0 && Distinct(keys)
    ensures multiset(Flatten(Batches(requests, keyOf, keys, size)))[r] == if keyOf(r) in keys then multiset(requests)[r] else 0
    decreases |keys|
  {
    if keys != [] {
      var init, last := keys[..|keys| - 1], keys[|keys| - 1];
      var group := Filter(requests, keyOf, last);
      LastIsNew(keys);
      FlattenCount(requests, keyOf, init, size, r);
      FlattenStep(Batches(requests, keyOf, init, size), last, group, size, r);
      FilterCount(requests, keyOf, last, r);
    }
  }

  lemma FlattenStep<T>(before: seq<Batch<T>>, last: string, group: seq<Request<T>>, size: nat, r: Request<T>)
    requires size > 0
    ensures multiset(Flatten(before + GroupBatches(last, group, size)))[r] == multiset(Flatten(before))[r] + multiset(group)[r]
  {
    FlattenConcat(before, GroupBatches(last, group, size));
    FlattenGroup(last, group, size);
  }

  /** Nothing is lost, repeated or invented. */
  lemma CoalescingPermutes<T(!new)>(requests: seq<Request<T>>, keyOf: Request<T> -> string, keys: seq<string>, size: nat)
    requires size > 0 && Distinct(keys) && forall r :: r in requests ==> keyOf(r) in keys
    ensures multiset(Flatten(Batches(requests, keyOf, keys, size))) == multiset(requests)
  {
    forall r ensures multiset(Flatten(Batches(requests, keyOf, keys, size)))[r] == multiset(requests)[r] {
      FlattenCount(requests, keyOf, keys, size, r);
      if keyOf(r) !in keys {
        assert r !in requests;
      }
    }
  }

  /** A batch of requests that share its key, under the provider and operation of its first. */
  ghost predicate Homogeneous<T>(batch: Batch<T>, keyOf: Request<T> -> string, size: nat) {
    && batch.items != [] && batch == BatchOf(batch.key, batch.items) && |batch.items| <= size
    && forall x :: x in batch.items ==> keyOf(x) == batch.key
  }

  lemma {:induction false} FilterKeys<T>(requests: seq<Request<T>>, keyOf: Request<T> -> string, key: string)
    ensures forall x :: x in Filter(requests, keyOf, key) ==> keyOf(x) == key
    decreases |requests|
  {
    if requests != [] {
      FilterKeys(requests[..|requests| - 1], keyOf, key);
    }
  }

  lemma GroupIsHomogeneous<T>(requests: seq<Request<T>>, keyOf: Request<T> -> string, key: string, size: nat)
    requires size > 0
    ensures forall b :: b in GroupBatches(key, Filter(requests, keyOf, key), size) ==> Homogeneous(b, keyOf, size)
  {
    var group := Filter(requests, keyOf, key);
    FilterKeys(requests, keyOf, key);
    forall b | b in GroupBatches(key, group, size) ensures Homogeneous(b, keyOf, size) {
      var i :| 0 <= i < |GroupBatches(key, group, size)| && GroupBatches(key, group, size)[i] == b;
      GroupSizes(key, group, size, i);
    }
  }

  lemma {:induction false} BatchesAreHomogeneous<T>(requests: seq<Request<T>>, keyOf: Request<T> -> string, keys: seq<string>, size: nat)
    requires size > 0
    ensures forall b :: b in Batches(requests, keyOf, keys, size) ==> Homogeneous(b, keyOf, size)
    decreases |keys|
  {
    if keys != [] {
      BatchesAreHomogeneous(requests, keyOf, keys[..|keys| - 1], size);
      GroupIsHomogeneous(requests, keyOf, keys[|keys| - 1], size);
    }
  }

  // --- the loops --------------------------------------------------------------------------------

  /** The greatest whole share of the provider's batch size, one at least. */
  function SafeSize(capability: Capability): (size: nat)
    ensures size >= 1
    ensures size > 1 ==> size as real <= capability.maxBatchSize as real * capability.utilization
    ensures capability.maxBatchSize as real * capability.utilization < (size + 1) as real
  {
    var scaled := (capability.maxBatchSize as real * capability.utilization).Floor;
    if scaled > 1 then scaled else 1
  }

  ghost predicate Grouped<T(!new)>(order: seq<string>, groups: map<string, seq<Request<T>>>, requests: seq<Request<T>>, keyOf: Request<T> -> string) {
    && Distinct(order)
    && (forall k :: k in order <==> k in groups)
    && (forall k :: Filter(requests, keyOf, k) == GroupOf(groups, k))
    && (forall r :: r in requests ==> keyOf(r) in groups)
  }

  function GroupOf<T>(groups: map<string, seq<Request<T>>>, key: string): seq<Request<T>> {
    if key in groups then groups[key] else []
  }

  lemma GroupedStep<T(!new)>(order: seq<string>, groups: map<string, seq<Request<T>>>, requests: seq<Request<T>>, keyOf: Request<T> -> string, request: Request<T>)
    requires Grouped(order, groups, requests, keyOf)
    ensures var key := keyOf(request);
            Grouped(if key in groups then order else order + [key], groups[key := GroupOf(groups, key) + [request]],
                    requests + [request], keyOf)
  {
    var key := keyOf(request);
    var after := groups[key := GroupOf(groups, key) + [request]];
    forall k ensures Filter(requests + [request], keyOf, k) == GroupOf(after, k) {
      FilterAppend(requests, keyOf, k, request);
      assert Filter(requests, keyOf, k) == GroupOf(groups, k);
    }
  }

  lemma FilterAppend<T>(requests: seq<Request<T>>, keyOf: Request<T> -> string, key: string, request: Request<T>)
    ensures Filter(requests + [request], keyOf, key) == Filter(requests, keyOf, key) + if keyOf(request) == key then [request] else []
  {
    assert (requests + [request])[..|requests|] == requests;
  }

  /** `groups.get(key) ?? []`, push, `groups.set`. */
  method AddToGroup<T(!new)>(order: seq<string>, groups: map<string, seq<Request<T>>>, ghost seen: seq<Request<T>>,
                             keyOf: Request<T> -> string, request: Request<T>)
    returns (order': seq<string>, groups': map<string, seq<Request<T>>>)
    requires Grouped(order, groups, seen, keyOf)
    ensures Grouped(order', groups', seen + [request], keyOf)
  {
    var key := keyOf(request);
    GroupedStep(order, groups, seen, keyOf, request);
    order' := if key in groups then order else order + [key];
    groups' := groups[key := GroupOf(groups, key) + [request]];
  }

  method GroupByKey<T(!new)>(requests: seq<Request<T>>, keyOf: Request<T> -> string) returns (order: seq<string>, groups: map<string, seq<Request<T>>>)
    ensures Grouped(order, groups, requests, keyOf)
  {
    order, groups := [], map[];
    for i := 0 to |requests|
      invariant Grouped(order, groups, requests[..i], keyOf)
    {
      order, groups := AddToGroup(order, groups, requests[..i], keyOf, requests[i]);
      assert requests[..i + 1] == requests[..i] + [requests[i]];
    }
    assert requests[..|requests|] == requests;
  }

  /** The chunking loop of one group. */
  method PushChunks<T>(key: string, group: seq<Request<T>>, size: nat) returns (batches: seq<Batch<T>>)
    requires size > 0
    ensures batches == GroupBatches(key, group, size)
  {
    batches := [];
    var offset := 0;
    NonePushed(key, group, size);
    while offset < |group|
      invariant 0 <= offset
      invariant Pushed(key, group, size, batches, offset)
      decreases |group| - offset
    {
      var end := if offset + size <= |group| then offset + size else |group|;
      PushOne(key, group, batches, offset, size);
      batches := batches + [BatchOf(key, group[offset..end])];
      offset := offset + size;
    }
    AllPushed(key, group, batches, offset, size);
  }

  /** The batches so far and those of the rest are the batches of the group. */
  ghost predicate Pushed<T>(key: string, group: seq<Request<T>>, size: nat, batches: seq<Batch<T>>, offset: nat) {
    size > 0 && GroupBatches(key, group, size) == batches + GroupBatches(key, Rest(group, offset), size)
  }

  lemma NonePushed<T>(key: string, group: seq<Request<T>>, size: nat)
    requires size > 0
    ensures Pushed(key, group, size, [], 0)
  {
    assert Rest(group, 0) == group;
  }

  lemma AllPushed<T>(key: string, group: seq<Request<T>>, batches: seq<Batch<T>>, offset: nat, size: nat)
    requires offset >= |group| && Pushed(key, group, size, batches, offset)
    ensures GroupBatches(key, group, size) == batches
  {
    assert Rest(group, offset) == [];
  }

  function Rest<T>(group: seq<T>, offset: nat): seq<T> { if offset <= |group| then group[offset..] else [] }

  lemma MoveBatch<T>(a: seq<Batch<T>>, b: Batch<T>, c: seq<Batch<T>>)
    ensures a + ([b] + c) == (a + [b]) + c
  {
  }

  lemma PushOne<T>(key: string, group: seq<Request<T>>, batches: seq<Batch<T>>, offset: nat, size: nat)
    requires offset < |group| && Pushed(key, group, size, batches, offset)
    ensures var end := if offset + size <= |group| then offset + size else |group|;
            Pushed(key, group, size, batches + [BatchOf(key, group[offset..end])], offset + size)
  {
    var end := if offset + size <= |group| then offset + size else |group|;
    CutOne(key, group, offset, size);
    MoveBatch(batches, BatchOf(key, group[offset..end]), GroupBatches(key, Rest(group, offset + size), size));
  }

  lemma CutOne<T>(key: string, group: seq<Request<T>>, offset: nat, size: nat)
    requires size > 0 && offset < |group|
    ensures var end := if offset + size <= |group| then offset + size else |group|;
            GroupBatches(key, Rest(group, offset), size)
            == [BatchOf(key, group[offset..end])] + GroupBatches(key, Rest(group, offset + size), size)
  {
    var rest := group[offset..];
    if |rest| > size {
      assert rest[size..] == group[offset + size..] && rest[..size] == group[offset..offset + size];
    } else {
      assert rest == group[offset..|group|] && Rest(group, offset + size) == [];
    }
  }

  /**
   `coalesce`. Keys come out in the order of `compare`, the locale comparison; the properties of
   the batches do not depend on it.
   */
  method Coalesce<T(!new)>(read: (T, string) -> Json, requests: seq<Request<T>>, capability: Option<Capability>,
                           compare: (string, string) -> bool) returns (batches: seq<Batch<T>>)
    requires Strings.IsOrder(compare)
    ensures multiset(Flatten(batches)) == multiset(requests)
    ensures capability.None? ==> |batches| == |requests| && forall i :: 0 <= i < |requests| ==> batches[i].items == [requests[i]]
    ensures capability.Some? ==>
              var keyOf := r => BatchKey(read, r, capability.value.keyFields);
              var size := SafeSize(capability.value);
              && (forall b :: b in batches ==> Homogeneous(b, keyOf, size))
              && (forall key :: Flatten(Under(batches, key)) == Filter(requests, keyOf, key) && AllFullButLast(Under(batches, key), size))
  {
    if capability.None? {
      batches := [];
      for i := 0 to |requests|
        invariant |batches| == i && forall j :: 0 <= j < i ==> batches[j].items == [requests[j]]
        invariant Flatten(batches) == requests[..i]
      {
        var single := BatchOf(BatchKey(read, requests[i], []), [requests[i]]);
        FlattenConcat(batches, [single]);
        FlattenOne(single);
        batches := batches + [single];
        assert requests[..i + 1] == requests[..i] + [requests[i]];
      }
      assert requests[..|requests|] == requests;
      return;
    }
    var keyOf := r => BatchKey(read, r, capability.value.keyFields);
    var size := SafeSize(capability.value);
    var order, groups := GroupByKey(requests, keyOf);
    var buffer := Strings.InsertionSort(order, compare);
    var keys := buffer[..];
    SortedKeys(order, compare);
    batches := [];
    for i := 0 to |keys|
      invariant batches == Batches(requests, keyOf, keys[..i], size)
    {
      assert keys[..i + 1][..i] == keys[..i];
      var chunks := PushChunks(keys[i], groups[keys[i]], size);
      batches := batches + chunks;
    }
    assert keys[..|keys|] == keys;
    CoalescingPermutes(requests, keyOf, keys, size);
    BatchesAreHomogeneous(requests, keyOf, keys, size);
    forall key ensures Flatten(Under(batches, key)) == Filter(requests, keyOf, key) && AllFullButLast(Under(batches, key), size) {
      if key in keys {
        GroupShape(requests, keyOf, keys, size, key);
      } else {
        BatchesOfKey(requests, keyOf, keys, size, key);
        NoRequests(requests, keyOf, key);
      }
    }
  }

  lemma SortedKeys(order: seq<string>, compare: (string, string) -> bool)
    requires Strings.IsOrder(compare) && Distinct(order)
    ensures Distinct(Strings.Sort(order, compare))
    ensures forall k :: k in Strings.Sort(order, compare) <==> k in order
  {
    Strings.SortIsStable(order, compare);
    PermutationOfDistinct(order, Strings.Sort(order, compare));
  }

  lemma {:induction false} NoRequests<T>(requests: seq<Request<T>>, keyOf: Request<T> -> string, key: string)
    requires forall r :: r in requests ==> keyOf(r) != key
    ensures Filter(requests, keyOf, key) == []
    decreases |requests|
  {
    if requests != [] {
      assert requests[|requests| - 1] in requests;
      NoRequests(requests[..|requests| - 1], keyOf, key);
    }
  }

  /** A homogeneous batch really is one provider and one operation, with equal key fields. */
  lemma BatchIsOneRoute<T>(read: (T, string) -> Json, batch: Batch<T>, fields: seq<string>, x: Request<T>)
    requires batch.items != [] && batch == BatchOf(batch.key, batch.items) && x in batch.items
    requires forall y :: y in batch.items ==> BatchKey(read, y, fields) == batch.key
    requires forall y, f :: y in batch.items && f in fields ==> WellFormed(read(y.input, f))
    ensures x.provider == batch.provider && x.operation == batch.operation
    ensures forall f :: f in fields ==> Meaning(read(x.input, f)) == Meaning(read(batch.items[0].input, f))
  {
    SameBatchKeyIff(read, x, batch.items[0], fields);
  }
}
