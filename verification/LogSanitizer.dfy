/** The log sanitizer: a walk over an arbitrary, possibly cyclic object graph whose reads may throw.
    Property reads, key enumeration and type tests can fail; string scrubbing and the sensitive-key test are
    parameters, so the results hold for any of them. */
module LogSanitizer {
  import opened Wrappers

  type Ref = nat

  /** A value of the language. A bigint is given by its decimal digits, a finite number by its printed form. */
  datatype Value =
    | Text(s: string) | BigInt(digits: string) | Function | Symbol | Number(printed: string) | NonFiniteNumber
    | Null | Plain(printed: string) | Object(ref: Ref)

  /** Reading a slot either gives a value or throws. */
  datatype Read = Gives(value: Value) | Throws

  /** The name of an error object: text, something coerced to text by the pattern test, or a throwing read. */
  datatype NameRead = NameText(s: string) | NameOther(coerced: string) | NameThrows

  /** An own enumerable property: its key and what reading it does. */
  datatype Slot = Slot(key: string, read: Read)

  datatype Node =
    | ErrorNode(name: NameRead, typ: Read)
    | DateNode(iso: Option<string>)
    | BufferNode
    | ArrayNode(items: seq<Read>)
    | RecordNode(entries: seq<Slot>)
    | KeysThrowNode   // Object.keys throws
    | HostileNode     // every test on the object throws

  type Heap = map<Ref, Node>

  datatype Policy = Policy(scrub: string -> string, sensitive: string -> bool)

  datatype Marker = Redacted | Unserializable | Circular | Truncated | FunctionMarker | SymbolMarker | NonFinite | Binary

  datatype Output =
    | OutText(s: string) | OutNull | OutPlain(printed: string) | OutMarker(marker: Marker)
    | OutError(typ: string)
    | OutArray(items: seq<Output>)
    | OutRecord(entries: seq<Field>)

  datatype Field = Field(key: string, value: Output)

  /** A sanitizing step either finishes or lets an exception escape. */
  datatype Outcome<+T> = Done(value: T) | Escaped

  const MAXIMUM_DEPTH := 8
  const MAXIMUM_ENTRIES := 100

  predicate IsLetter(c: char) {
    'A' <= c <= 'Z' || 'a' <= c <= 'z'
  }

  /** ^[A-Za-z][A-Za-z0-9_.-]{0,63}$ */
  predicate IsTypeName(s: string) {
    && 1 <= |s| <= 64 && IsLetter(s[0])
    && forall i | 1 <= i < |s| :: IsLetter(s[i]) || '0' <= s[i] <= '9' || s[i] in "_.-"
  }

  function ErrorType(policy: Policy, node: Node): string
    requires node.ErrorNode?
  {
    match node.name
    case NameThrows => "Error"
    case NameText(s) => if IsTypeName(s) then policy.scrub(s) else TypeField(policy, node.typ)
    case NameOther(coerced) => if IsTypeName(coerced) then "Error" else TypeField(policy, node.typ)
  }

  function TypeField(policy: Policy, typ: Read): string {
    match typ
    case Gives(Text(s)) => if IsTypeName(s) then policy.scrub(s) else "Error"
    case _ => "Error"
  }

  predicate ForbiddenKey(key: string) {
    key == "__proto__" || key == "constructor" || key == "prototype"
  }

  /** result[key] = value: an existing key keeps its place. */
  function SetEntry(entries: seq<Field>, key: string, value: Output): seq<Field> {
    if entries == [] then [Field(key, value)]
    else if entries[0].key == key then [Field(key, value)] + entries[1..]
    else [entries[0]] + SetEntry(entries[1..], key, value)
  }

  function Take<T>(s: seq<T>, n: nat): seq<T> {
    if |s| <= n then s else s[..n]
  }

  /** The node of an object; an unknown object behaves like one on which everything throws. */
  function At(h: Heap, r: Ref): Node {
    if r in h then h[r] else HostileNode
  }

  /** sanitizeLogValueInternal, with the set of objects seen so far passed along. */
  function SanitizeValue(h: Heap, policy: Policy, v: Value, seen: set<Ref>, depth: nat): (Outcome<Output>, set<Ref>)
    requires depth <= MAXIMUM_DEPTH
    decreases MAXIMUM_DEPTH - depth, 3
  {
    match v
    case Text(s) => (Done(OutText(policy.scrub(s))), seen)
    case BigInt(digits) => (Done(OutText(digits)), seen)
    case Function => (Done(OutMarker(FunctionMarker)), seen)
    case Symbol => (Done(OutMarker(SymbolMarker)), seen)
    case Number(printed) => (Done(OutPlain(printed)), seen)
    case NonFiniteNumber => (Done(OutMarker(NonFinite)), seen)
    case Null => (Done(OutNull), seen)
    case Plain(printed) => (Done(OutPlain(printed)), seen)
    case Object(r) => SanitizeObject(h, policy, r, seen, depth)
  }

  function SanitizeObject(h: Heap, policy: Policy, r: Ref, seen: set<Ref>, depth: nat): (Outcome<Output>, set<Ref>)
    requires depth <= MAXIMUM_DEPTH
    decreases MAXIMUM_DEPTH - depth, 2
  {
    var node := At(h, r);
    if node.HostileNode? then (Escaped, seen)
    else if node.ErrorNode? then (Done(OutError(ErrorType(policy, node))), seen)
    else if node.DateNode? then (Done(if node.iso.Some? then OutText(node.iso.value) else OutMarker(Unserializable)), seen)
    else if node.BufferNode? then (Done(OutMarker(Binary)), seen)
    else if depth >= MAXIMUM_DEPTH then (Done(OutMarker(Truncated)), seen)
    else if r in seen then (Done(OutMarker(Circular)), seen)
    else if node.ArrayNode? then
      var items := Take(node.items, MAXIMUM_ENTRIES);
      if exists i :: 0 <= i < |items| && items[i].Throws? then (Escaped, seen + {r})
      else
        var (result, after) := SanitizeItems(h, policy, items, seen + {r}, depth + 1);
        if result.Escaped? then (Escaped, after)
        else (Done(OutArray(result.value + if |node.items| > MAXIMUM_ENTRIES then [OutMarker(Truncated)] else [])), after)
    else if node.RecordNode? then
      var (result, after) := SanitizeEntries(h, policy, Take(node.entries, MAXIMUM_ENTRIES), seen + {r}, depth + 1);
      (Done(OutRecord(if |node.entries| > MAXIMUM_ENTRIES then SetEntry(result, "truncated", OutMarker(Truncated)) else result)), after)
    else (Escaped, seen + {r})
  }

  /** The map over the sliced items, last item last; an exception from one item escapes from the array. */
  function SanitizeItems(h: Heap, policy: Policy, items: seq<Read>, seen: set<Ref>, depth: nat): (Outcome<seq<Output>>, set<Ref>)
    requires depth <= MAXIMUM_DEPTH
    requires forall i | 0 <= i < |items| :: items[i].Gives?
    decreases MAXIMUM_DEPTH - depth, 4, |items|
  {
    if items == [] then (Done([]), seen)
    else
      var n := |items| - 1;
      var (earlier, between) := SanitizeItems(h, policy, items[..n], seen, depth);
      if earlier.Escaped? then (Escaped, between)
      else
        var (last, after) := SanitizeValue(h, policy, items[n].value, between, depth);
        (if last.Escaped? then Escaped else Done(earlier.value + [last.value]), after)
  }

  /** What one key contributes; an exception while reading or sanitizing its value is caught here. */
  function SanitizeEntry(h: Heap, policy: Policy, entry: Slot, seen: set<Ref>, depth: nat): (Option<Output>, set<Ref>)
    requires depth <= MAXIMUM_DEPTH
    decreases MAXIMUM_DEPTH - depth, 4, 0
  {
    if ForbiddenKey(entry.key) then (None, seen)
    else if policy.sensitive(entry.key) then (Some(OutMarker(Redacted)), seen)
    else if entry.read.Throws? then (Some(OutMarker(Unserializable)), seen)
    else
      var (result, after) := SanitizeValue(h, policy, entry.read.value, seen, depth);
      (Some(if result.Done? then result.value else OutMarker(Unserializable)), after)
  }

  function SanitizeEntries(h: Heap, policy: Policy, entries: seq<Slot>, seen: set<Ref>, depth: nat)
    : (seq<Field>, set<Ref>)
    requires depth <= MAXIMUM_DEPTH
    decreases MAXIMUM_DEPTH - depth, 4, |entries| + 1
  {
    if entries == [] then ([], seen)
    else
      var n := |entries| - 1;
      var (earlier, between) := SanitizeEntries(h, policy, entries[..n], seen, depth);
      var (last, after) := SanitizeEntry(h, policy, entries[n], between, depth);
      (if last.None? then earlier else SetEntry(earlier, entries[n].key, last.value), after)
  }

  /** sanitizeLogValue: whatever escapes becomes a marker. */
  function SanitizeLogValue(h: Heap, policy: Policy, v: Value): Output {
    var (result, _) := SanitizeValue(h, policy, v, {}, 0);
    if result.Done? then result.value else OutMarker(Unserializable)
  }

  /* ---- Non-interference ---- */

  /** The slots of a record whose value can influence the output. */
  predicate Public(policy: Policy, key: string) {
    !ForbiddenKey(key) && !policy.sensitive(key)
  }

  /** A slot holds the same in both heaps, and leads only into the view. */
  predicate SameRead(view: set<Ref>, a: Read, b: Read) {
    a == b && (a.Gives? && a.value.Object? ==> a.value.ref in view)
  }

  /** Two nodes that differ at most in what they store under forbidden and sensitive keys. */
  predicate SameNode(policy: Policy, view: set<Ref>, a: Node, b: Node) {
    match a
    case ArrayNode(items) =>
      b.ArrayNode? && |items| == |b.items| && forall i | 0 <= i < |items| :: SameRead(view, items[i], b.items[i])
    case RecordNode(entries) =>
      && b.RecordNode? && |entries| == |b.entries|
      && forall i | 0 <= i < |entries| ::
           && entries[i].key == b.entries[i].key
           && (Public(policy, entries[i].key) ==> SameRead(view, entries[i].read, b.entries[i].read))
    case _ => a == b
  }

  /** The heaps agree on the view, a set of objects closed under public slots. Outside it they are unrelated. */
  predicate PubliclyEqual(policy: Policy, view: set<Ref>, h1: Heap, h2: Heap) {
    forall r | r in view :: SameNode(policy, view, At(h1, r), At(h2, r))
  }

  predicate InView(view: set<Ref>, v: Value) {
    v.Object? ==> v.ref in view
  }

  lemma {:induction false} ValueInterference(h1: Heap, h2: Heap, policy: Policy, view: set<Ref>, v: Value, seen: set<Ref>, depth: nat)
    requires depth <= MAXIMUM_DEPTH
    requires PubliclyEqual(policy, view, h1, h2) && InView(view, v)
    ensures SanitizeValue(h1, policy, v, seen, depth) == SanitizeValue(h2, policy, v, seen, depth)
    decreases MAXIMUM_DEPTH - depth, 3
  {
    hide SanitizeItems, SanitizeEntries, ErrorType, SetEntry;
    if v.Object? {
      var r := v.ref;
      var a, b := At(h1, r), At(h2, r);
      assert SameNode(policy, view, a, b);
      if depth < MAXIMUM_DEPTH && r !in seen && a.ArrayNode? {
        assert Take(a.items, MAXIMUM_ENTRIES) == Take(b.items, MAXIMUM_ENTRIES);
        if forall i | 0 <= i < |Take(a.items, MAXIMUM_ENTRIES)| :: a.items[i].Gives? {
          ItemsInterference(h1, h2, policy, view, Take(a.items, MAXIMUM_ENTRIES), seen + {r}, depth + 1);
        }
      } else if depth < MAXIMUM_DEPTH && r !in seen && a.RecordNode? {
        EntriesInterference(h1, h2, policy, view, Take(a.entries, MAXIMUM_ENTRIES), Take(b.entries, MAXIMUM_ENTRIES), seen + {r}, depth + 1);
      }
    }
  }

  lemma {:induction false} ItemsInterference(h1: Heap, h2: Heap, policy: Policy, view: set<Ref>, items: seq<Read>, seen: set<Ref>, depth: nat)
    requires depth <= MAXIMUM_DEPTH && PubliclyEqual(policy, view, h1, h2)
    requires forall i | 0 <= i < |items| :: items[i].Gives? && InView(view, items[i].value)
    ensures SanitizeItems(h1, policy, items, seen, depth) == SanitizeItems(h2, policy, items, seen, depth)
    decreases MAXIMUM_DEPTH - depth, 4, |items|
  {
    if items != [] {
      var n := |items| - 1;
      ItemsInterference(h1, h2, policy, view, items[..n], seen, depth);
      var (_, between) := SanitizeItems(h1, policy, items[..n], seen, depth);
      ValueInterference(h1, h2, policy, view, items[n].value, between, depth);
    }
  }

  lemma {:induction false} EntriesInterference(h1: Heap, h2: Heap, policy: Policy, view: set<Ref>,
                                               a: seq<Slot>, b: seq<Slot>, seen: set<Ref>, depth: nat)
    requires depth <= MAXIMUM_DEPTH && PubliclyEqual(policy, view, h1, h2)
    requires |a| == |b|
    requires forall i | 0 <= i < |a| :: a[i].key == b[i].key && (Public(policy, a[i].key) ==> SameRead(view, a[i].read, b[i].read))
    ensures SanitizeEntries(h1, policy, a, seen, depth) == SanitizeEntries(h2, policy, b, seen, depth)
    decreases MAXIMUM_DEPTH - depth, 4, |a|
  {
    if a != [] {
      var n := |a| - 1;
      EntriesInterference(h1, h2, policy, view, a[..n], b[..n], seen, depth);
      var (_, between) := SanitizeEntries(h1, policy, a[..n], seen, depth);
      if Public(policy, a[n].key) && a[n].read.Gives? {
        ValueInterference(h1, h2, policy, view, a[n].read.value, between, depth);
      }
    }
  }

  /** What is stored under a sensitive key, and whatever is reachable only through such keys, never reaches a log:
      two heaps that agree on the public view of the logged value produce the same output. */
  lemma SensitiveValuesDoNotInterfere(h1: Heap, h2: Heap, policy: Policy, view: set<Ref>, v: Value)
    requires PubliclyEqual(policy, view, h1, h2) && InView(view, v)
    ensures SanitizeLogValue(h1, policy, v) == SanitizeLogValue(h2, policy, v)
  {
    ValueInterference(h1, h2, policy, view, v, {}, 0);
  }

  /* ---- Size ---- */

  /** Containers in an output: one for each object that was expanded into it. */
  function Containers(o: Output): nat {
    match o
    case OutArray(items) => 1 + ContainersIn(items)
    case OutRecord(entries) => 1 + ContainersUnder(entries)
    case _ => 0
  }

  function ContainersIn(items: seq<Output>): nat {
    if items == [] then 0 else ContainersIn(items[..|items| - 1]) + Containers(items[|items| - 1])
  }

  function ContainersUnder(entries: seq<Field>): nat {
    if entries == [] then 0 else Containers(entries[0].value) + ContainersUnder(entries[1..])
  }

  /** Nodes in an output. */
  function Size(o: Output): nat {
    match o
    case OutArray(items) => 1 + SizeIn(items)
    case OutRecord(entries) => 1 + SizeUnder(entries)
    case OutError(_) => 2
    case _ => 1
  }

  function SizeIn(items: seq<Output>): nat {
    if items == [] then 0 else SizeIn(items[..|items| - 1]) + Size(items[|items| - 1])
  }

  function SizeUnder(entries: seq<Field>): nat {
    if entries == [] then 0 else Size(entries[0].value) + SizeUnder(entries[1..])
  }

  /** No container is wider than 101 and none lies deeper than the given number of levels. */
  predicate Within(o: Output, levels: nat) {
    match o
    case OutArray(items) =>
      levels > 0 && |items| <= MAXIMUM_ENTRIES + 1 && forall i | 0 <= i < |items| :: Within(items[i], levels - 1)
    case OutRecord(entries) =>
      levels > 0 && |entries| <= MAXIMUM_ENTRIES + 1 && forall i | 0 <= i < |entries| :: Within(entries[i].value, levels - 1)
    case _ => true
  }

  lemma {:induction false} SetEntryKeepsBounds(entries: seq<Field>, key: string, value: Output, levels: nat)
    requires forall i | 0 <= i < |entries| :: Within(entries[i].value, levels)
    requires Within(value, levels)
    ensures
      var after := SetEntry(entries, key, value);
      && |after| <= |entries| + 1
      && ContainersUnder(after) <= ContainersUnder(entries) + Containers(value)
      && forall i | 0 <= i < |after| :: Within(after[i].value, levels)
  {
    if entries == [] {
    } else if entries[0].key == key {
      assert ([Field(key, value)] + entries[1..])[1..] == entries[1..];
    } else {
      SetEntryKeepsBounds(entries[1..], key, value, levels);
      var rest := SetEntry(entries[1..], key, value);
      assert ([entries[0]] + rest)[1..] == rest;
    }
  }

  lemma ContainersAppend(items: seq<Output>, last: Output)
    ensures ContainersIn(items + [last]) == ContainersIn(items) + Containers(last)
  {
    assert (items + [last])[..|items|] == items;
  }

  /** What a step adds to the seen set, in terms of what it put out and of a set closed under public slots. */
  predicate Grows(view: set<Ref>, seen: set<Ref>, after: set<Ref>, containers: nat) {
    seen <= after <= seen + view && containers + |seen| <= |after|
  }

  lemma {:induction false} ValueGrowth(h: Heap, policy: Policy, view: set<Ref>, v: Value, seen: set<Ref>, depth: nat)
    requires depth <= MAXIMUM_DEPTH && PubliclyEqual(policy, view, h, h) && InView(view, v)
    ensures
      var (result, after) := SanitizeValue(h, policy, v, seen, depth);
      && Grows(view, seen, after, if result.Done? then Containers(result.value) else 0)
      && (result.Done? ==> Within(result.value, MAXIMUM_DEPTH - depth))
    decreases MAXIMUM_DEPTH - depth, 3
  {
    hide SanitizeItems, SanitizeEntries, Within;
    if v.Object? {
      var node := At(h, v.ref);
      if node.ArrayNode? && depth < MAXIMUM_DEPTH && v.ref !in seen {
        ArrayGrowth(h, policy, view, v.ref, seen, depth);
      } else if node.RecordNode? && depth < MAXIMUM_DEPTH && v.ref !in seen {
        RecordGrowth(h, policy, view, v.ref, seen, depth);
      } else {
        LeafIsWithin(h, policy, v.ref, seen, depth);
      }
    } else {
      var (result, _) := SanitizeValue(h, policy, v, seen, depth);
      NoContainer(result.value, MAXIMUM_DEPTH - depth);
    }
  }

  lemma NoContainer(o: Output, levels: nat)
    requires !o.OutArray? && !o.OutRecord?
    ensures Within(o, levels) && Containers(o) == 0
  {
  }

  lemma LeafIsWithin(h: Heap, policy: Policy, r: Ref, seen: set<Ref>, depth: nat)
    requires depth <= MAXIMUM_DEPTH
    requires depth == MAXIMUM_DEPTH || r in seen || !(At(h, r).ArrayNode? || At(h, r).RecordNode?)
    ensures
      var (result, after) := SanitizeObject(h, policy, r, seen, depth);
      && seen <= after <= seen + {r}
      && (result.Done? ==> Containers(result.value) == 0 && Within(result.value, MAXIMUM_DEPTH - depth))
  {
  }

  lemma {:induction false} ArrayGrowth(h: Heap, policy: Policy, view: set<Ref>, r: Ref, seen: set<Ref>, depth: nat)
    requires depth < MAXIMUM_DEPTH && PubliclyEqual(policy, view, h, h) && r in view
    requires At(h, r).ArrayNode? && r !in seen
    ensures
      var (result, after) := SanitizeObject(h, policy, r, seen, depth);
      && Grows(view, seen, after, if result.Done? then Containers(result.value) else 0)
      && (result.Done? ==> Within(result.value, MAXIMUM_DEPTH - depth))
    decreases MAXIMUM_DEPTH - depth, 2
  {
    hide SanitizeItems, SanitizeEntries, ErrorType, SetEntry, ContainersIn;
    var node := At(h, r);
    assert SameNode(policy, view, node, node);
    hide PubliclyEqual, SameNode;
    assert |seen + {r}| == |seen| + 1;
    var items := Take(node.items, MAXIMUM_ENTRIES);
    if forall i | 0 <= i < |items| :: items[i].Gives? {
      assert forall i | 0 <= i < |items| :: items[i] == node.items[i];
      ItemsGrowth(h, policy, view, items, seen + {r}, depth + 1);
      var (result, after) := SanitizeItems(h, policy, items, seen + {r}, depth + 1);
      if result.Done? {
        var truncated := if |node.items| > MAXIMUM_ENTRIES then [OutMarker(Truncated)] else [];
        ContainersAppend(result.value, OutMarker(Truncated));
        assert result.value + [] == result.value;
        assert Containers(OutArray(result.value + truncated)) == 1 + ContainersIn(result.value);
      }
    }
  }

  lemma {:induction false} RecordGrowth(h: Heap, policy: Policy, view: set<Ref>, r: Ref, seen: set<Ref>, depth: nat)
    requires depth < MAXIMUM_DEPTH && PubliclyEqual(policy, view, h, h) && r in view
    requires At(h, r).RecordNode? && r !in seen
    ensures
      var (result, after) := SanitizeObject(h, policy, r, seen, depth);
      && Grows(view, seen, after, if result.Done? then Containers(result.value) else 0)
      && (result.Done? ==> Within(result.value, MAXIMUM_DEPTH - depth))
    decreases MAXIMUM_DEPTH - depth, 2
  {
    hide SanitizeItems, SanitizeEntries, SetEntry;
    var node := At(h, r);
    assert SameNode(policy, view, node, node);
    assert |seen + {r}| == |seen| + 1;
    var entries := Take(node.entries, MAXIMUM_ENTRIES);
    assert forall i | 0 <= i < |entries| :: entries[i] == node.entries[i];
    EntriesGrowth(h, policy, view, entries, seen + {r}, depth + 1);
    var (result, _) := SanitizeEntries(h, policy, entries, seen + {r}, depth + 1);
    SetEntryKeepsBounds(result, "truncated", OutMarker(Truncated), MAXIMUM_DEPTH - depth - 1);
  }

  lemma {:induction false} ItemsGrowth(h: Heap, policy: Policy, view: set<Ref>, items: seq<Read>, seen: set<Ref>, depth: nat)
    requires depth <= MAXIMUM_DEPTH && PubliclyEqual(policy, view, h, h)
    requires forall i | 0 <= i < |items| :: items[i].Gives? && InView(view, items[i].value)
    ensures
      var (result, after) := SanitizeItems(h, policy, items, seen, depth);
      && Grows(view, seen, after, if result.Done? then ContainersIn(result.value) else 0)
      && (result.Done? ==>
            |result.value| == |items| && forall i | 0 <= i < |items| :: Within(result.value[i], MAXIMUM_DEPTH - depth))
    decreases MAXIMUM_DEPTH - depth, 4, |items|
  {
    hide SanitizeValue, SanitizeObject, PubliclyEqual, InView, Within, Containers;
    if items != [] {
      var n := |items| - 1;
      ItemsGrowth(h, policy, view, items[..n], seen, depth);
      var (earlier, between) := SanitizeItems(h, policy, items[..n], seen, depth);
      if earlier.Done? {
        ValueGrowth(h, policy, view, items[n].value, between, depth);
        var (last, _) := SanitizeValue(h, policy, items[n].value, between, depth);
        if last.Done? {
          ContainersAppend(earlier.value, last.value);
        }
      }
    }
  }

  lemma {:induction false} EntryGrowth(h: Heap, policy: Policy, view: set<Ref>, entry: Slot, seen: set<Ref>, depth: nat)
    requires depth <= MAXIMUM_DEPTH && PubliclyEqual(policy, view, h, h)
    requires Public(policy, entry.key) ==> SameRead(view, entry.read, entry.read)
    ensures
      var (result, after) := SanitizeEntry(h, policy, entry, seen, depth);
      && Grows(view, seen, after, if result.Some? then Containers(result.value) else 0)
      && (result.Some? ==> Within(result.value, MAXIMUM_DEPTH - depth))
    decreases MAXIMUM_DEPTH - depth, 4, 0
  {
    hide SanitizeValue, PubliclyEqual;
    if Public(policy, entry.key) && entry.read.Gives? {
      ValueGrowth(h, policy, view, entry.read.value, seen, depth);
    }
  }

  lemma {:induction false} EntriesGrowth(h: Heap, policy: Policy, view: set<Ref>, entries: seq<Slot>, seen: set<Ref>, depth: nat)
    requires depth <= MAXIMUM_DEPTH && PubliclyEqual(policy, view, h, h)
    requires forall i | 0 <= i < |entries| :: Public(policy, entries[i].key) ==> SameRead(view, entries[i].read, entries[i].read)
    ensures
      var (result, after) := SanitizeEntries(h, policy, entries, seen, depth);
      && Grows(view, seen, after, ContainersUnder(result))
      && |result| <= |entries|
      && forall i | 0 <= i < |result| :: Within(result[i].value, MAXIMUM_DEPTH - depth)
    decreases MAXIMUM_DEPTH - depth, 4, |entries| + 1
  {
    hide SanitizeEntry, PubliclyEqual, Public, SameRead, Within, Containers, SetEntry;
    if entries != [] {
      var n := |entries| - 1;
      EntriesGrowth(h, policy, view, entries[..n], seen, depth);
      var (earlier, between) := SanitizeEntries(h, policy, entries[..n], seen, depth);
      EntryGrowth(h, policy, view, entries[n], between, depth);
      var (last, _) := SanitizeEntry(h, policy, entries[n], between, depth);
      if last.Some? {
        SetEntryKeepsBounds(earlier, entries[n].key, last.value, MAXIMUM_DEPTH - depth);
      }
    }
  }

  /** An output is at most a constant times larger than the number of its containers. */
  lemma {:induction false} SizeByContainers(o: Output, levels: nat)
    requires Within(o, levels)
    ensures Size(o) <= 2 + 202 * Containers(o)
    decreases o, 0
  {
    match o
    case OutArray(items) => ItemsSize(items, levels - 1);
    case OutRecord(entries) => EntriesSize(entries, levels - 1);
    case _ =>
  }

  lemma {:induction false} ItemsSize(items: seq<Output>, levels: nat)
    requires forall i | 0 <= i < |items| :: Within(items[i], levels)
    ensures SizeIn(items) <= 2 * |items| + 202 * ContainersIn(items)
    decreases items, 1
  {
    if items != [] {
      ItemsSize(items[..|items| - 1], levels);
      SizeByContainers(items[|items| - 1], levels);
    }
  }

  lemma {:induction false} EntriesSize(entries: seq<Field>, levels: nat)
    requires forall i | 0 <= i < |entries| :: Within(entries[i].value, levels)
    ensures SizeUnder(entries) <= 2 * |entries| + 202 * ContainersUnder(entries)
    decreases entries, 1
  {
    if entries != [] {
      SizeByContainers(entries[0].value, levels);
      EntriesSize(entries[1..], levels);
    }
  }

  /** However the graph is shaped, each object is expanded at most once: the output holds no more containers than the
      public view of the value has objects, is linear in that number, at most 101 wide and 8 containers deep. */
  lemma OutputIsBounded(h: Heap, policy: Policy, view: set<Ref>, v: Value)
    requires PubliclyEqual(policy, view, h, h) && InView(view, v)
    ensures
      var o := SanitizeLogValue(h, policy, v);
      Containers(o) <= |view| && Size(o) <= 2 + 202 * |view| && Within(o, MAXIMUM_DEPTH)
  {
    ValueGrowth(h, policy, view, v, {}, 0);
    var (_, after) := SanitizeValue(h, policy, v, {}, 0);
    CardinalityOfSubset(after, view);
    SizeByContainers(SanitizeLogValue(h, policy, v), MAXIMUM_DEPTH);
  }

  lemma {:induction false} CardinalityOfSubset(a: set<Ref>, b: set<Ref>)
    requires a <= b
    ensures |a| <= |b|
  {
    if a != {} {
      var x :| x in a;
      CardinalityOfSubset(a - {x}, b - {x});
    }
  }

  /* ---- The program ---- */

  /** The WeakSet one call of the sanitizer shares among all its steps. */
  class SeenSet {
    var refs: set<Ref>

    constructor ()
      ensures refs == {}
    {
      refs := {};
    }
  }

  method RunSanitizeValue(h: Heap, policy: Policy, v: Value, seen: SeenSet, depth: nat) returns (result: Outcome<Output>)
    requires depth <= MAXIMUM_DEPTH
    modifies seen
    ensures (result, seen.refs) == SanitizeValue(h, policy, v, old(seen.refs), depth)
    decreases MAXIMUM_DEPTH - depth, 3
  {
    match v
    case Text(s) => result := Done(OutText(policy.scrub(s)));
    case BigInt(digits) => result := Done(OutText(digits));
    case Function => result := Done(OutMarker(FunctionMarker));
    case Symbol => result := Done(OutMarker(SymbolMarker));
    case Number(printed) => result := Done(OutPlain(printed));
    case NonFiniteNumber => result := Done(OutMarker(NonFinite));
    case Null => result := Done(OutNull);
    case Plain(printed) => result := Done(OutPlain(printed));
    case Object(r) => result := RunSanitizeObject(h, policy, r, seen, depth);
  }

  method RunSanitizeObject(h: Heap, policy: Policy, r: Ref, seen: SeenSet, depth: nat) returns (result: Outcome<Output>)
    requires depth <= MAXIMUM_DEPTH
    modifies seen
    ensures (result, seen.refs) == SanitizeObject(h, policy, r, old(seen.refs), depth)
    decreases MAXIMUM_DEPTH - depth, 2
  {
    hide SanitizeItems, SanitizeEntries, ErrorType, SetEntry;
    var node := At(h, r);
    if node.HostileNode? {
      return Escaped;
    }
    if node.ErrorNode? {
      return Done(OutError(ErrorType(policy, node)));
    }
    if node.DateNode? {
      return Done(if node.iso.Some? then OutText(node.iso.value) else OutMarker(Unserializable));
    }
    if node.BufferNode? {
      return Done(OutMarker(Binary));
    }
    if depth >= MAXIMUM_DEPTH {
      return Done(OutMarker(Truncated));
    }
    if r in seen.refs {
      return Done(OutMarker(Circular));
    }
    seen.refs := seen.refs + {r};
    if node.ArrayNode? {
      result := RunSanitizeArray(h, policy, node.items, seen, depth + 1);
    } else if node.RecordNode? {
      var fields := RunSanitizeRecord(h, policy, node.entries, seen, depth + 1);
      result := Done(OutRecord(fields));
    } else {
      result := Escaped;
    }
  }

  /** value.slice(0, 100).map(...): the slice reads every item before the first one is sanitized. */
  method RunSanitizeArray(h: Heap, policy: Policy, items: seq<Read>, seen: SeenSet, depth: nat) returns (result: Outcome<Output>)
    requires depth <= MAXIMUM_DEPTH
    modifies seen
    ensures
      var slice := Take(items, MAXIMUM_ENTRIES);
      if exists i :: 0 <= i < |slice| && slice[i].Throws?
      then result == Escaped && seen.refs == old(seen.refs)
      else
        var (outputs, after) := SanitizeItems(h, policy, slice, old(seen.refs), depth);
        && seen.refs == after
        && result == (if outputs.Escaped? then Escaped
                      else Done(OutArray(outputs.value + if |items| > MAXIMUM_ENTRIES then [OutMarker(Truncated)] else [])))
    decreases MAXIMUM_DEPTH - depth, 4
  {
    var slice := Take(items, MAXIMUM_ENTRIES);
    for i := 0 to |slice|
      invariant forall k | 0 <= k < i :: slice[k].Gives?
      invariant seen.refs == old(seen.refs)
    {
      if slice[i].Throws? {
        return Escaped;
      }
    }
    var outputs: seq<Output> := [];
    for i := 0 to |slice|
      invariant SanitizeItems(h, policy, slice[..i], old(seen.refs), depth) == (Done(outputs), seen.refs)
    {
      assert slice[..i + 1][..i] == slice[..i];
      var output := RunSanitizeValue(h, policy, slice[i].value, seen, depth);
      if output.Escaped? {
        EscapeAtPrefix(h, policy, slice, i + 1, old(seen.refs), depth);
        return Escaped;
      }
      outputs := outputs + [output.value];
    }
    assert slice[..|slice|] == slice && outputs + [] == outputs;
    if |items| > MAXIMUM_ENTRIES {
      outputs := outputs + [OutMarker(Truncated)];
    }
    result := Done(OutArray(outputs));
  }

  /** An exception in a prefix is the result of the whole array, and nothing after it is looked at. */
  lemma {:induction false} EscapeAtPrefix(h: Heap, policy: Policy, items: seq<Read>, i: nat, seen: set<Ref>, depth: nat)
    requires depth <= MAXIMUM_DEPTH && i <= |items|
    requires forall k | 0 <= k < |items| :: items[k].Gives?
    requires SanitizeItems(h, policy, items[..i], seen, depth).0.Escaped?
    ensures SanitizeItems(h, policy, items, seen, depth) == SanitizeItems(h, policy, items[..i], seen, depth)
    decreases |items|
  {
    if i == |items| {
      assert items[..i] == items;
    } else {
      var n := |items| - 1;
      assert items[..n][..i] == items[..i];
      EscapeAtPrefix(h, policy, items[..n], i, seen, depth);
    }
  }

  /** The loop over the first hundred keys. */
  method RunSanitizeRecord(h: Heap, policy: Policy, entries: seq<Slot>, seen: SeenSet, depth: nat) returns (result: seq<Field>)
    requires depth <= MAXIMUM_DEPTH
    modifies seen
    ensures
      var (fields, after) := SanitizeEntries(h, policy, Take(entries, MAXIMUM_ENTRIES), old(seen.refs), depth);
      && seen.refs == after
      && result == (if |entries| > MAXIMUM_ENTRIES then SetEntry(fields, "truncated", OutMarker(Truncated)) else fields)
    decreases MAXIMUM_DEPTH - depth, 4
  {
    var slice := Take(entries, MAXIMUM_ENTRIES);
    result := [];
    for i := 0 to |slice|
      invariant SanitizeEntries(h, policy, slice[..i], old(seen.refs), depth) == (result, seen.refs)
    {
      assert slice[..i + 1][..i] == slice[..i];
      var key, read := slice[i].key, slice[i].read;
      if ForbiddenKey(key) {
        continue;
      }
      if policy.sensitive(key) {
        result := SetEntry(result, key, OutMarker(Redacted));
        continue;
      }
      if read.Throws? {
        result := SetEntry(result, key, OutMarker(Unserializable));
      } else {
        var output := RunSanitizeValue(h, policy, read.value, seen, depth);
        result := SetEntry(result, key, if output.Done? then output.value else OutMarker(Unserializable));
      }
    }
    assert slice[..|slice|] == slice;
    if |entries| > MAXIMUM_ENTRIES {
      result := SetEntry(result, "truncated", OutMarker(Truncated));
    }
  }

  method RunSanitizeLogValue(h: Heap, policy: Policy, v: Value) returns (output: Output)
    ensures output == SanitizeLogValue(h, policy, v)
  {
    var seen := new SeenSet();
    var result := RunSanitizeValue(h, policy, v, seen, 0);
    output := if result.Done? then result.value else OutMarker(Unserializable);
  }
}
