/** Canonical JSON text of batch keys, and when two values share it. */
module CanonicalJson {
  import opened TextOrder
  import opened Texts

  /** A JavaScript value as `canonical` sees it; a finite number is its JSON text, NaN and the infinities are `NonFinite`. */
  datatype Json = Null | Undefined | NonFinite | Bool(flag: bool) | Num(text: string) | Str(chars: string) | Arr(items: Items) | Obj(members: Members)

  datatype Items = Nil | Cons(head: Json, tail: Items)

  /** Own properties in the order they were created. */
  datatype Members = End | Member(key: string, value: Json, rest: Members)

  // --- the text ---------------------------------------------------------------------------------

  function Short(c: char): (r: char) {
    if c == '"' then '"' else if c == '\\' then '\\'
    else if c as int == 8 then 'b' else if c as int == 9 then 't' else if c as int == 10 then 'n'
    else if c as int == 12 then 'f' else if c as int == 13 then 'r' else 'u'
  }

  function Hex(n: nat): (c: char)
    requires n < 16
  {
    if n < 10 then '0' + n as char else 'a' + (n - 10) as char
  }

  /** `JSON.stringify` of one character. */
  function Escape(c: char): (r: string)
    ensures r != [] && r[0] != '"'
  {
    if Short(c) != 'u' then ['\\', Short(c)]
    else if c as int < 32 then ['\\', 'u', '0', '0', Hex(c as int / 16), Hex(c as int % 16)]
    else [c]
  }

  function EscapeAll(s: string): string {
    if s == [] then [] else Escape(s[0]) + EscapeAll(s[1..])
  }

  function Quote(s: string): string { ['"'] + (EscapeAll(s) + ['"']) }

  /** `canonical` with object members in the order given; an undefined array item is joined as nothing. */
  function Write(v: Json): string
    decreases v, 0
  {
    match v
    case Null => "null"
    case Undefined => "undefined"
    case NonFinite => "null"
    case Bool(flag) => if flag then "true" else "false"
    case Num(text) => text
    case Str(chars) => Quote(chars)
    case Arr(items) => ['['] + (WriteItems(items) + [']'])
    case Obj(members) => ['{'] + (WriteMembers(members) + ['}'])
  }

  function ItemText(v: Json): string
    decreases v, 1
  {
    if v.Undefined? then "" else Write(v)
  }

  function WriteItems(items: Items): string {
    match items
    case Nil => ""
    case Cons(head, Nil) => ItemText(head)
    case Cons(head, tail) => ItemText(head) + ([','] + WriteItems(tail))
  }

  function WriteMembers(members: Members): string {
    match members
    case End => ""
    case Member(key, value, End) => Quote(key) + ([':'] + Write(value))
    case Member(key, value, rest) => Quote(key) + ([':'] + (Write(value) + ([','] + WriteMembers(rest))))
  }

  // --- key order --------------------------------------------------------------------------------

  function InsertMember(key: string, value: Json, members: Members): Members {
    match members
    case End => Member(key, value, End)
    case Member(k, v, rest) => if Less(k, key) then Member(k, v, InsertMember(key, value, rest)) else Member(key, value, members)
  }

  /** Object members sorted by key, at every depth; an array of one undefined reads as empty, a non-finite number as null. */
  function Normal(v: Json): Json {
    match v
    case Arr(items) => if items == Cons(Undefined, Nil) then Arr(Nil) else Arr(NormalItems(items))
    case Obj(members) => Obj(NormalMembers(members))
    case NonFinite => Null
    case _ => v
  }

  function NormalItems(items: Items): Items {
    match items
    case Nil => Nil
    case Cons(head, tail) => Cons(Normal(head), NormalItems(tail))
  }

  function NormalMembers(members: Members): Members {
    match members
    case End => End
    case Member(key, value, rest) => InsertMember(key, Normal(value), NormalMembers(rest))
  }

  /** `canonical`. */
  function Canonical(v: Json): string { Write(Normal(v)) }

  // --- well-formed values -----------------------------------------------------------------------

  predicate NumberChar(c: char) { '0' <= c <= '9' || c in {'-', '+', '.', 'e', 'E'} }

  function Keys(members: Members): set<string> {
    match members
    case End => {}
    case Member(key, _, rest) => {key} + Keys(rest)
  }

  /** Numbers carry a number text and property names are distinct. */
  predicate WellFormed(v: Json) {
    match v
    case Num(text) => text != [] && ('0' <= text[0] <= '9' || text[0] == '-') && forall i :: 0 <= i < |text| ==> NumberChar(text[i])
    case Arr(items) => WellFormedItems(items)
    case Obj(members) => WellFormedMembers(members)
    case _ => true
  }

  predicate WellFormedItems(items: Items) {
    match items
    case Nil => true
    case Cons(head, tail) => WellFormed(head) && WellFormedItems(tail)
  }

  predicate WellFormedMembers(members: Members) {
    match members
    case End => true
    case Member(key, value, rest) => key !in Keys(rest) && WellFormed(value) && WellFormedMembers(rest)
  }

  /** No array consists of a single undefined, and every number is finite. */
  predicate Clean(v: Json) {
    match v
    case NonFinite => false
    case Arr(items) => items != Cons(Undefined, Nil) && CleanItems(items)
    case Obj(members) => CleanMembers(members)
    case _ => true
  }

  predicate CleanItems(items: Items) {
    match items
    case Nil => true
    case Cons(head, tail) => Clean(head) && CleanItems(tail)
  }

  predicate CleanMembers(members: Members) {
    match members
    case End => true
    case Member(_, value, rest) => Clean(value) && CleanMembers(rest)
  }

  // --- the text determines the value ------------------------------------------------------------

  lemma Peel(c: char, d: char, x: string, y: string)
    requires [c] + x == [d] + y
    ensures c == d && x == y
  {
    assert ([c] + x)[0] == c && ([d] + y)[0] == d;
    Cancel([c], x, y);
  }

  lemma EscapeUnique(c: char, d: char, x: string, y: string)
    requires Escape(c) + x == Escape(d) + y
    ensures c == d && x == y
  {
    var a, b := Escape(c), Escape(d);
    var l, r := a + x, b + y;
    assert l[0] == a[0] && r[0] == b[0];
    if a[0] == '\\' {
      assert l[1] == a[1] && r[1] == b[1];
      if a[1] == 'u' {
        assert l[4] == a[4] && l[5] == a[5] && r[4] == b[4] && r[5] == b[5];
      }
    }
    assert c == d;
    Cancel(a, x, y);
  }

  lemma Associate(a: string, b: string, c: string)
    ensures (a + b) + c == a + (b + c)
  {
  }

  lemma QuotedStart(s: string, x: string)
    ensures (EscapeAll(s) + (['"'] + x))[0] == '"' <==> s == []
  {
  }

  lemma {:induction false} QuotedUnique(s: string, t: string, x: string, y: string)
    requires EscapeAll(s) + (['"'] + x) == EscapeAll(t) + (['"'] + y)
    ensures s == t && x == y
    decreases |s|
  {
    if s != [] && t != [] {
      Associate(Escape(s[0]), EscapeAll(s[1..]), ['"'] + x);
      Associate(Escape(t[0]), EscapeAll(t[1..]), ['"'] + y);
      EscapeUnique(s[0], t[0], EscapeAll(s[1..]) + (['"'] + x), EscapeAll(t[1..]) + (['"'] + y));
      QuotedUnique(s[1..], t[1..], x, y);
      assert s == [s[0]] + s[1..] && t == [t[0]] + t[1..];
    } else {
      QuotedStart(s, x);
      QuotedStart(t, y);
      Cancel(EscapeAll(s), ['"'] + x, ['"'] + y);
      Peel('"', '"', x, y);
    }
  }

  lemma QuoteUnique(s: string, t: string, x: string, y: string)
    requires Quote(s) + x == Quote(t) + y
    ensures s == t && x == y
  {
    assert Quote(s) + x == ['"'] + (EscapeAll(s) + (['"'] + x));
    assert Quote(t) + y == ['"'] + (EscapeAll(t) + (['"'] + y));
    Peel('"', '"', EscapeAll(s) + (['"'] + x), EscapeAll(t) + (['"'] + y));
    QuotedUnique(s, t, x, y);
  }

  /** What may follow a value. */
  predicate Stops(s: string) { s == [] || s[0] in {',', ']', '}'} }

  lemma NumberUnique(a: string, b: string, x: string, y: string)
    requires (forall i :: 0 <= i < |a| ==> NumberChar(a[i])) && forall i :: 0 <= i < |b| ==> NumberChar(b[i])
    requires Stops(x) && Stops(y) && a + x == b + y
    ensures a == b && x == y
  {
    NumberNotLonger(a, b, x, y);
    NumberNotLonger(b, a, y, x);
    assert a == (a + x)[..|a|] && b == (b + y)[..|b|];
    Cancel(a, x, y);
  }

  lemma NumberNotLonger(a: string, b: string, x: string, y: string)
    requires (forall i :: 0 <= i < |b| ==> NumberChar(b[i])) && Stops(x) && a + x == b + y
    ensures |b| <= |a|
  {
    assert forall i :: 0 <= i < |b| ==> (b + y)[i] == b[i] && NumberChar(b[i]);
    assert x != [] ==> (a + x)[|a|] == x[0];
  }

  /** The first character tells what kind of value follows. */
  function Lead(v: Json): (c: char)
    requires WellFormed(v)
    ensures c !in {',', ']', '}'}
  {
    match v
    case Null => 'n'
    case Undefined => 'u'
    case NonFinite => 'n'
    case Bool(flag) => if flag then 't' else 'f'
    case Num(text) => text[0]
    case Str(_) => '"'
    case Arr(_) => '['
    case Obj(_) => '{'
  }

  lemma StartsWithLead(v: Json, x: string)
    requires WellFormed(v)
    ensures Write(v) != [] && (Write(v) + x)[0] == Lead(v)
  {
  }

  lemma Enclosed(open: char, body: string, close: char, x: string)
    ensures ([open] + (body + [close])) + x == [open] + (body + ([close] + x))
  {
  }

  lemma {:induction false} WriteUnique(u: Json, v: Json, x: string, y: string)
    requires WellFormed(u) && WellFormed(v) && Clean(u) && Clean(v) && Stops(x) && Stops(y)
    requires Write(u) + x == Write(v) + y
    ensures u == v && x == y
    decreases u, 0
  {
    StartsWithLead(u, x);
    StartsWithLead(v, y);
    match u {
      case Num(text) => NumberUnique(text, v.text, x, y);
      case Str(chars) => QuoteUnique(chars, v.chars, x, y);
      case Arr(items) =>
        Enclosed('[', WriteItems(items), ']', x);
        Enclosed('[', WriteItems(v.items), ']', y);
        Peel('[', '[', WriteItems(items) + ([']'] + x), WriteItems(v.items) + ([']'] + y));
        ItemsUnique(items, v.items, x, y);
      case Obj(members) =>
        Enclosed('{', WriteMembers(members), '}', x);
        Enclosed('{', WriteMembers(v.members), '}', y);
        Peel('{', '{', WriteMembers(members) + (['}'] + x), WriteMembers(v.members) + (['}'] + y));
        MembersUnique(members, v.members, x, y);
      case _ => Cancel(Write(u), x, y);
    }
  }

  /** What follows the head of a nonempty item list. */
  function AfterHead(tail: Items, x: string): string {
    if tail.Nil? then [']'] + x else [','] + (WriteItems(tail) + ([']'] + x))
  }

  lemma SplitItems(items: Items, x: string)
    requires items.Cons?
    ensures WriteItems(items) + ([']'] + x) == ItemText(items.head) + AfterHead(items.tail, x)
  {
  }

  lemma {:induction false} ItemsUnique(a: Items, b: Items, x: string, y: string)
    requires WellFormedItems(a) && WellFormedItems(b) && CleanItems(a) && CleanItems(b)
    requires a != Cons(Undefined, Nil) && b != Cons(Undefined, Nil)
    requires WriteItems(a) + ([']'] + x) == WriteItems(b) + ([']'] + y)
    ensures a == b && x == y
    decreases a, 1
  {
    if a.Cons? && b.Cons? {
      SomeItemsUnique(a, b, x, y);
    } else {
      if a.Cons? { StartsNonempty(a, x); }
      if b.Cons? { StartsNonempty(b, y); }
      assert a.Nil? ==> WriteItems(a) + ([']'] + x) == [']'] + x;
      assert b.Nil? ==> WriteItems(b) + ([']'] + y) == [']'] + y;
      Peel(']', ']', x, y);
    }
  }

  lemma StartsNonempty(items: Items, x: string)
    requires items.Cons? && items != Cons(Undefined, Nil) && WellFormedItems(items)
    ensures (WriteItems(items) + ([']'] + x))[0] != ']'
  {
    SplitItems(items, x);
    if !items.head.Undefined? {
      StartsWithLead(items.head, AfterHead(items.tail, x));
    }
  }

  lemma {:induction false} SomeItemsUnique(a: Items, b: Items, x: string, y: string)
    requires WellFormedItems(a) && WellFormedItems(b) && CleanItems(a) && CleanItems(b) && a.Cons? && b.Cons?
    requires WriteItems(a) + ([']'] + x) == WriteItems(b) + ([']'] + y)
    ensures a == b && x == y
    decreases a, 0
  {
    var p, q := AfterHead(a.tail, x), AfterHead(b.tail, y);
    SplitItems(a, x);
    SplitItems(b, y);
    ItemUnique(a.head, b.head, p, q);
    assert p[0] == (if a.tail.Nil? then ']' else ',') && q[0] == (if b.tail.Nil? then ']' else ',');
    if a.tail.Cons? {
      Peel(',', ',', WriteItems(a.tail) + ([']'] + x), WriteItems(b.tail) + ([']'] + y));
      SomeItemsUnique(a.tail, b.tail, x, y);
    } else {
      Peel(']', ']', x, y);
    }
  }

  lemma {:induction false} ItemUnique(u: Json, v: Json, p: string, q: string)
    requires WellFormed(u) && WellFormed(v) && Clean(u) && Clean(v) && Stops(p) && Stops(q) && p != [] && q != []
    requires ItemText(u) + p == ItemText(v) + q
    ensures u == v && p == q
    decreases u, 1
  {
    StartsWithLead(u, p);
    StartsWithLead(v, q);
    if !u.Undefined? && !v.Undefined? {
      WriteUnique(u, v, p, q);
    } else {
      assert u.Undefined? ==> (ItemText(u) + p)[0] == p[0];
      assert v.Undefined? ==> (ItemText(v) + q)[0] == q[0];
      assert ItemText(u) + p == p && ItemText(v) + q == q;
    }
  }

  /** What follows the first value of a member list. */
  function AfterValue(rest: Members, x: string): string {
    if rest.End? then ['}'] + x else [','] + (WriteMembers(rest) + (['}'] + x))
  }

  lemma SplitMembers(members: Members, x: string)
    requires members.Member?
    ensures WriteMembers(members) + (['}'] + x)
         == Quote(members.key) + ([':'] + (Write(members.value) + AfterValue(members.rest, x)))
  {
    var k, v := Quote(members.key), Write(members.value);
    if members.rest.End? {
      Associate(k, [':'] + v, ['}'] + x);
      Associate([':'], v, ['}'] + x);
    } else {
      var w := WriteMembers(members.rest);
      Associate(k, [':'] + (v + ([','] + w)), ['}'] + x);
      Associate([':'], v + ([','] + w), ['}'] + x);
      Associate(v, [','] + w, ['}'] + x);
      Associate([','], w, ['}'] + x);
    }
  }

  lemma {:induction false} MembersUnique(a: Members, b: Members, x: string, y: string)
    requires WellFormedMembers(a) && WellFormedMembers(b) && CleanMembers(a) && CleanMembers(b)
    requires WriteMembers(a) + (['}'] + x) == WriteMembers(b) + (['}'] + y)
    ensures a == b && x == y
    decreases a
  {
    if a.Member? { SplitMembers(a, x); }
    if b.Member? { SplitMembers(b, y); }
    assert a.Member? ==> (WriteMembers(a) + (['}'] + x))[0] == '"';
    assert b.Member? ==> (WriteMembers(b) + (['}'] + y))[0] == '"';
    assert a.End? ==> WriteMembers(a) + (['}'] + x) == ['}'] + x;
    assert b.End? ==> WriteMembers(b) + (['}'] + y) == ['}'] + y;
    if a.Member? {
      SomeMembersUnique(a, b, x, y);
    } else {
      Peel('}', '}', x, y);
    }
  }

  lemma {:induction false} SomeMembersUnique(a: Members, b: Members, x: string, y: string)
    requires WellFormedMembers(a) && WellFormedMembers(b) && CleanMembers(a) && CleanMembers(b) && a.Member? && b.Member?
    requires WriteMembers(a) + (['}'] + x) == WriteMembers(b) + (['}'] + y)
    ensures a == b && x == y
    decreases a, 0
  {
    var p, q := AfterValue(a.rest, x), AfterValue(b.rest, y);
    SplitMembers(a, x);
    SplitMembers(b, y);
    QuoteUnique(a.key, b.key, [':'] + (Write(a.value) + p), [':'] + (Write(b.value) + q));
    Peel(':', ':', Write(a.value) + p, Write(b.value) + q);
    WriteUnique(a.value, b.value, p, q);
    assert p[0] == (if a.rest.End? then '}' else ',') && q[0] == (if b.rest.End? then '}' else ',');
    if a.rest.Member? {
      Peel(',', ',', WriteMembers(a.rest) + (['}'] + x), WriteMembers(b.rest) + (['}'] + y));
      SomeMembersUnique(a.rest, b.rest, x, y);
    } else {
      Peel('}', '}', x, y);
    }
  }

  // --- what a value means -----------------------------------------------------------------------

  /** A value with objects as maps: gone are property order, `[undefined]`, and what a non-finite number was. */
  datatype Value = VNull | VUndefined | VBool(flag: bool) | VNum(text: string) | VStr(chars: string) | VArr(items: seq<Value>)
                 | VObj(members: map<string, Value>)

  function Meaning(v: Json): Value {
    match v
    case Null => VNull
    case Undefined => VUndefined
    case NonFinite => VNull
    case Bool(flag) => VBool(flag)
    case Num(text) => VNum(text)
    case Str(chars) => VStr(chars)
    case Arr(items) => VArr(if items == Cons(Undefined, Nil) then [] else MeaningItems(items))
    case Obj(members) => VObj(MeaningMembers(members))
  }

  function MeaningItems(items: Items): seq<Value> {
    match items
    case Nil => []
    case Cons(head, tail) => [Meaning(head)] + MeaningItems(tail)
  }

  function MeaningMembers(members: Members): (r: map<string, Value>)
    ensures r.Keys == Keys(members)
  {
    match members
    case End => map[]
    case Member(key, value, rest) => MeaningMembers(rest)[key := Meaning(value)]
  }

  predicate Sorted(v: Json) {
    match v
    case Arr(items) => SortedItems(items)
    case Obj(members) => SortedMembers(members)
    case _ => true
  }

  predicate SortedItems(items: Items) {
    match items
    case Nil => true
    case Cons(head, tail) => Sorted(head) && SortedItems(tail)
  }

  predicate SortedMembers(members: Members) {
    match members
    case End => true
    case Member(key, value, rest) => (forall k :: k in Keys(rest) ==> Less(key, k)) && Sorted(value) && SortedMembers(rest)
  }

  predicate Settled(v: Json) { WellFormed(v) && Clean(v) && Sorted(v) }

  predicate SettledMembers(members: Members) { WellFormedMembers(members) && CleanMembers(members) && SortedMembers(members) }

  predicate SettledItems(items: Items) { WellFormedItems(items) && CleanItems(items) && SortedItems(items) }

  lemma {:induction false} InsertKeys(key: string, value: Json, members: Members)
    ensures Keys(InsertMember(key, value, members)) == Keys(members) + {key}
  {
    match members
    case End =>
    case Member(k, v, rest) => InsertKeys(key, value, rest);
  }

  lemma {:induction false} InsertMeaning(key: string, value: Json, members: Members)
    requires key !in Keys(members)
    ensures MeaningMembers(InsertMember(key, value, members)) == MeaningMembers(members)[key := Meaning(value)]
  {
    match members
    case End =>
    case Member(k, v, rest) => InsertMeaning(key, value, rest);
  }

  lemma LeastKey(key: string, members: Members)
    requires SortedMembers(members) && members.Member? && Less(key, members.key)
    ensures forall q :: q in Keys(members) ==> Less(key, q)
  {
    forall q | q in Keys(members) ensures Less(key, q) {
      if q != members.key { LessTransitive(key, members.key, q); }
    }
  }

  lemma {:induction false} InsertKeeps(key: string, value: Json, members: Members)
    requires SettledMembers(members) && Settled(value) && key !in Keys(members)
    ensures SettledMembers(InsertMember(key, value, members))
  {
    match members
    case End =>
    case Member(k, v, rest) =>
      LessTrichotomy(k, key);
      if Less(k, key) {
        InsertKeeps(key, value, rest);
        InsertKeys(key, value, rest);
      } else {
        LeastKey(key, members);
      }
  }

  /** Normalisation sorts and cleans without changing the meaning. */
  lemma {:induction false} NormalKeeps(v: Json)
    requires WellFormed(v)
    ensures Settled(Normal(v)) && Meaning(Normal(v)) == Meaning(v) && (Normal(v).Undefined? <==> v.Undefined?)
  {
    match v
    case Arr(items) => NormalItemsKeep(items);
    case Obj(members) => NormalMembersKeep(members);
    case _ =>
  }

  lemma {:induction false} NormalItemsKeep(items: Items)
    requires WellFormedItems(items)
    ensures SettledItems(NormalItems(items)) && MeaningItems(NormalItems(items)) == MeaningItems(items)
    ensures NormalItems(items) == Cons(Undefined, Nil) <==> items == Cons(Undefined, Nil)
  {
    match items
    case Nil =>
    case Cons(head, tail) =>
      NormalKeeps(head);
      NormalItemsKeep(tail);
  }

  lemma {:induction false} NormalMembersKeep(members: Members)
    requires WellFormedMembers(members)
    ensures SettledMembers(NormalMembers(members)) && MeaningMembers(NormalMembers(members)) == MeaningMembers(members)
    ensures Keys(NormalMembers(members)) == Keys(members)
  {
    match members
    case End =>
    case Member(key, value, rest) =>
      NormalKeeps(value);
      NormalMembersKeep(rest);
      InsertKeeps(key, Normal(value), NormalMembers(rest));
      InsertKeys(key, Normal(value), NormalMembers(rest));
      InsertMeaning(key, Normal(value), NormalMembers(rest));
  }

  /** Sorted values with the same meaning are the same value. */
  lemma {:induction false} MeaningDetermines(u: Json, v: Json)
    requires Settled(u) && Settled(v) && Meaning(u) == Meaning(v)
    ensures u == v
  {
    match u
    case Arr(items) => MeaningDeterminesItems(items, v.items);
    case Obj(members) => MeaningDeterminesMembers(members, v.members);
    case _ =>
  }

  lemma {:induction false} MeaningDeterminesItems(a: Items, b: Items)
    requires SettledItems(a) && SettledItems(b) && MeaningItems(a) == MeaningItems(b)
    ensures a == b
  {
    match a
    case Nil =>
    case Cons(head, tail) =>
      assert MeaningItems(a)[0] == Meaning(head) && MeaningItems(a)[1..] == MeaningItems(tail);
      assert MeaningItems(b)[0] == Meaning(b.head) && MeaningItems(b)[1..] == MeaningItems(b.tail);
      MeaningDetermines(head, b.head);
      MeaningDeterminesItems(tail, b.tail);
  }

  lemma {:induction false} MeaningDeterminesMembers(a: Members, b: Members)
    requires SettledMembers(a) && SettledMembers(b) && MeaningMembers(a) == MeaningMembers(b)
    ensures a == b
  {
    assert Keys(a) == Keys(b);
    OnlyEndIsEmpty(b);
    match a
    case End =>
    case Member(key, value, rest) =>
      assert key in Keys(b);
      FirstKeysAgree(a, b);
      assert MeaningMembers(a)[key] == Meaning(value) && MeaningMembers(b)[key] == Meaning(b.value);
      assert MeaningMembers(rest) == MeaningMembers(a) - {key};
      assert MeaningMembers(b.rest) == MeaningMembers(b) - {key};
      MeaningDetermines(value, b.value);
      MeaningDeterminesMembers(rest, b.rest);
  }

  lemma OnlyEndIsEmpty(members: Members)
    ensures Keys(members) == {} <==> members.End?
  {
    if members.Member? { assert members.key in Keys(members); }
  }

  lemma FirstKeysAgree(a: Members, b: Members)
    requires SettledMembers(a) && SettledMembers(b) && Keys(a) == Keys(b) && a.Member? && b.Member?
    ensures a.key == b.key
  {
    assert a.key in Keys(b) && b.key in Keys(a);
    LessTrichotomy(a.key, b.key);
  }

  /** Two values share their canonical text exactly when they mean the same. */
  lemma CanonicalIff(u: Json, v: Json)
    requires WellFormed(u) && WellFormed(v)
    ensures Canonical(u) == Canonical(v) <==> Meaning(u) == Meaning(v)
  {
    NormalKeeps(u);
    NormalKeeps(v);
    if Canonical(u) == Canonical(v) {
      assert Write(Normal(u)) + "" == Write(Normal(v)) + "";
      WriteUnique(Normal(u), Normal(v), "", "");
    }
    if Meaning(u) == Meaning(v) {
      MeaningDetermines(Normal(u), Normal(v));
    }
  }

  /** An object of two properties, created in either order: smaller name first, colon, comma, braces. */
  lemma ObjectText(a: string, u: Json, b: string, v: Json)
    requires Less(a, b)
    ensures var text := "{" + (Quote(a) + (":" + (Canonical(u) + ("," + (Quote(b) + (":" + Canonical(v)))))) + "}");
            Canonical(Obj(Member(b, v, Member(a, u, End)))) == text && Canonical(Obj(Member(a, u, Member(b, v, End)))) == text
  {
    TwoSorted(a, u, b, v);
    TwoMembers(a, Normal(u), b, Normal(v));
  }

  lemma TwoSorted(a: string, u: Json, b: string, v: Json)
    requires Less(a, b)
    ensures NormalMembers(Member(b, v, Member(a, u, End))) == Member(a, Normal(u), Member(b, Normal(v), End))
    ensures NormalMembers(Member(a, u, Member(b, v, End))) == Member(a, Normal(u), Member(b, Normal(v), End))
  {
    LessTrichotomy(a, b);
    assert NormalMembers(Member(a, u, End)) == Member(a, Normal(u), End);
    assert NormalMembers(Member(b, v, End)) == Member(b, Normal(v), End);
  }

  lemma TwoMembers(a: string, x: Json, b: string, y: Json)
    ensures Write(Obj(Member(a, x, Member(b, y, End))))
         == "{" + (Quote(a) + (":" + (Write(x) + ("," + (Quote(b) + (":" + Write(y)))))) + "}")
  {
    var second := Member(b, y, End);
    assert WriteMembers(second) == Quote(b) + (":" + Write(y));
    assert WriteMembers(Member(a, x, second)) == Quote(a) + (":" + (Write(x) + ("," + WriteMembers(second))));
  }

  /** An array of two items: brackets and a comma, in the order given. */
  lemma ArrayText(u: Json, v: Json)
    requires !u.Undefined? && !v.Undefined?
    ensures Canonical(Arr(Cons(u, Cons(v, Nil)))) == "[" + (Canonical(u) + ("," + Canonical(v)) + "]")
  {
    var second := Cons(v, Nil);
    assert NormalItems(second) == Cons(Normal(v), Nil);
    assert NormalItems(Cons(u, second)) == Cons(Normal(u), Cons(Normal(v), Nil));
    assert Normal(Arr(Cons(u, second))) == Arr(Cons(Normal(u), Cons(Normal(v), Nil)));
    TwoItems(Normal(u), Normal(v));
  }

  lemma TwoItems(x: Json, y: Json)
    requires !x.Undefined? && !y.Undefined?
    ensures Write(Arr(Cons(x, Cons(y, Nil)))) == "[" + (Write(x) + ("," + Write(y)) + "]")
  {
    var second := Cons(y, Nil);
    assert WriteItems(second) == Write(y);
    assert WriteItems(Cons(x, second)) == Write(x) + ("," + WriteItems(second));
  }

  function HexValue(c: char): int {
    if '0' <= c <= '9' then c as int - '0' as int else c as int - 'a' as int + 10
  }

  /** A character stands for itself unless it is a quote, a backslash or a control; seven have names, other controls a code. */
  lemma EscapeText(c: char)
    ensures Escape(c) == [c] <==> c >= ' ' && c != '"' && c != '\\'
    ensures Escape('"') == "\\\"" && Escape('\\') == "\\\\"
    ensures Escape('\U{8}') == "\\b" && Escape('\t') == "\\t" && Escape('\n') == "\\n" && Escape('\U{C}') == "\\f" && Escape('\r') == "\\r"
    ensures c < ' ' && c !in {'\U{8}', '\t', '\n', '\U{C}', '\r'} ==>
              |Escape(c)| == 6 && Escape(c)[..4] == "\\u00" && 16 * HexValue(Escape(c)[4]) + HexValue(Escape(c)[5]) == c as int
  {
  }

  /** The four plain values. */
  lemma PlainText(text: string)
    ensures Canonical(Null) == "null" && Canonical(Bool(true)) == "true" && Canonical(Bool(false)) == "false"
    ensures Canonical(Num(text)) == text
  {
  }

  /** NaN and the infinities are written like null, at any depth. */
  lemma NonFiniteIsNull()
    ensures Canonical(NonFinite) == Canonical(Null)
    ensures Canonical(Arr(Cons(NonFinite, Nil))) == Canonical(Arr(Cons(Null, Nil)))
  {
    CanonicalIff(NonFinite, Null);
    CanonicalIff(Arr(Cons(NonFinite, Nil)), Arr(Cons(Null, Nil)));
  }

  /** Arrays lose exactly one distinction: a lone undefined item is written like no item. */
  lemma LoneUndefinedVanishes()
    ensures Canonical(Arr(Cons(Undefined, Nil))) == Canonical(Arr(Nil))
    ensures Canonical(Arr(Cons(Undefined, Cons(Undefined, Nil)))) != Canonical(Arr(Nil))
  {
    CanonicalIff(Arr(Cons(Undefined, Nil)), Arr(Nil));
    CanonicalIff(Arr(Cons(Undefined, Cons(Undefined, Nil))), Arr(Nil));
  }
}
