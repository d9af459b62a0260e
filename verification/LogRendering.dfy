/** What the log sanitizer puts out, told without its functions: a walk is a tree of renderings, each judged by local
    rules, and the output of the program is that of the only walk there is. */
module LogRendering {
  import opened Wrappers
  import opened LogSanitizer

  /** The rendering of one value: what it put out or that an exception escaped from it, the objects expanded on the way, and
      the renderings of its items or entries that were reached. An entry left out has no rendering. */
  datatype Walk = Walk(result: Outcome<Output>, expanded: set<Ref>, parts: seq<Walk>) | Omitted

  function Leaf(o: Output): Walk {
    Walk(Done(o), {}, [])
  }

  function Expanded(parts: seq<Walk>): set<Ref> {
    if parts == [] then {}
    else
      var last := parts[|parts| - 1];
      Expanded(parts[..|parts| - 1]) + (if last.Walk? then last.expanded else {})
  }

  /** A letter, then at most 63 letters, digits, dots, hyphens and underscores. */
  predicate TypePattern(s: string) {
    && 1 <= |s| <= 64
    && forall i | 0 <= i < |s| ::
         'A' <= s[i] <= 'Z' || 'a' <= s[i] <= 'z' || (i > 0 && ('0' <= s[i] <= '9' || s[i] == '_' || s[i] == '.' || s[i] == '-'))
  }

  lemma TypeNamesMatchThePattern(s: string)
    ensures IsTypeName(s) <==> TypePattern(s)
  {
    assert "_.-" == ['_', '.', '-'];
  }

  /** The type an error is reduced to: its name if that is a text of the right form, else its type field likewise, scrubbed;
      "Error" where neither will do or reading throws. */
  predicate IsErrorType(policy: Policy, name: NameRead, typ: Read, t: string) {
    var field := if typ.Gives? && typ.value.Text? && TypePattern(typ.value.s) then policy.scrub(typ.value.s) else "Error";
    match name
    case NameText(s) => t == if TypePattern(s) then policy.scrub(s) else field
    case NameOther(coerced) => t == if TypePattern(coerced) then "Error" else field
    case NameThrows => t == "Error"
  }

  /** How a value is rendered when some objects have been expanded before it, at a depth. */
  predicate Renders(h: Heap, policy: Policy, v: Value, seen: set<Ref>, depth: nat, w: Walk)
    decreases w, 2
  {
    match v
    case Text(s) => w == Leaf(OutText(policy.scrub(s)))
    case BigInt(digits) => w == Leaf(OutText(digits))
    case Function => w == Leaf(OutMarker(FunctionMarker))
    case Symbol => w == Leaf(OutMarker(SymbolMarker))
    case Number(printed) => w == Leaf(OutPlain(printed))
    case NonFiniteNumber => w == Leaf(OutMarker(NonFinite))
    case Null => w == Leaf(OutNull)
    case Plain(printed) => w == Leaf(OutPlain(printed))
    case Object(r) =>
      match At(h, r)
      case HostileNode => w == Walk(Escaped, {}, [])
      case ErrorNode(name, typ) =>
        w.Walk? && w.result.Done? && w.result.value.OutError? && IsErrorType(policy, name, typ, w.result.value.typ)
        && w == Leaf(w.result.value)
      case DateNode(iso) => w == Leaf(if iso.Some? then OutText(iso.value) else OutMarker(Unserializable))
      case BufferNode => w == Leaf(OutMarker(Binary))
      case ArrayNode(_) => RendersContainer(h, policy, r, seen, depth, w)
      case RecordNode(_) => RendersContainer(h, policy, r, seen, depth, w)
      case KeysThrowNode => RendersContainer(h, policy, r, seen, depth, w)
  }

  /** A container at depth 8 is truncated, one expanded before is circular, and any other is expanded here. */
  predicate RendersContainer(h: Heap, policy: Policy, r: Ref, seen: set<Ref>, depth: nat, w: Walk)
    decreases w, 1
  {
    if depth >= 8 then w == Leaf(OutMarker(Truncated))
    else if r in seen then w == Leaf(OutMarker(Circular))
    else
      && w.Walk?
      && w.expanded == {r} + Expanded(w.parts)
      && match At(h, r)
         case ArrayNode(items) => RendersItems(h, policy, items, seen + {r}, depth + 1, w)
         case RecordNode(entries) => RendersEntries(h, policy, entries, seen + {r}, depth + 1, w)
         case _ => w.result == Escaped && w.parts == []
  }

  function FirstHundred(n: nat): nat {
    if n <= 100 then n else 100
  }

  /** An array gives the renderings of its first hundred items in order, and a mark if there are more. It escapes when one of
      these items cannot be read, or at the first one that escapes. */
  predicate RendersItems(h: Heap, policy: Policy, items: seq<Read>, seen: set<Ref>, depth: nat, w: Walk)
    requires w.Walk?
    decreases w, 0
  {
    var n := FirstHundred(|items|);
    if exists i | 0 <= i < n :: items[i].Throws? then w.result == Escaped && w.parts == []
    else
      && |w.parts| <= n
      && (forall i | 0 <= i < |w.parts| ::
            w.parts[i].Walk? && Renders(h, policy, items[i].value, seen + Expanded(w.parts[..i]), depth, w.parts[i]))
      && if w.result.Escaped?
         then |w.parts| > 0 && w.parts[|w.parts| - 1].result.Escaped?
              && forall i | 0 <= i < |w.parts| - 1 :: w.parts[i].result.Done?
         else
           && |w.parts| == n
           && w.result.value.OutArray?
           && var shown := w.result.value.items;
              && |shown| == (if |items| > 100 then n + 1 else n)
              && (forall i | 0 <= i < n :: w.parts[i].result == Done(shown[i]))
              && (|items| > 100 ==> shown[n] == OutMarker(Truncated))
  }

  /** An entry gives nothing for a forbidden key, a mark for a sensitive one or where it cannot be read, and otherwise the
      rendering of its value. */
  predicate RendersEntry(h: Heap, policy: Policy, entry: Slot, seen: set<Ref>, depth: nat, w: Walk)
    decreases w, 3
  {
    if entry.key == "__proto__" || entry.key == "constructor" || entry.key == "prototype" then w == Omitted
    else if policy.sensitive(entry.key) then w == Leaf(OutMarker(Redacted))
    else if entry.read.Throws? then w == Leaf(OutMarker(Unserializable))
    else w.Walk? && Renders(h, policy, entry.read.value, seen, depth, w)
  }

  /** A record gives one part for each of its first hundred entries, assigned to their keys in order, and a mark under
      "truncated" if there are more. It never escapes. */
  predicate RendersEntries(h: Heap, policy: Policy, entries: seq<Slot>, seen: set<Ref>, depth: nat, w: Walk)
    requires w.Walk?
    decreases w, 0
  {
    var n := FirstHundred(|entries|);
    && |w.parts| == n
    && (forall i | 0 <= i < n ::
          RendersEntry(h, policy, entries[i], seen + Expanded(w.parts[..i]), depth, w.parts[i]))
    && var written := Assignments(entries[..n], w.parts) + (if |entries| > 100 then [Field("truncated", OutMarker(Truncated))] else []);
       w.result == Done(OutRecord(Record(written)))
  }

  /** What a part shows; an exception that escaped from it is caught. */
  function Shown(w: Walk): Output
    requires w.Walk?
  {
    if w.result.Done? then w.result.value else OutMarker(Unserializable)
  }

  /** The assignments to the result, in order. */
  function Assignments(entries: seq<Slot>, parts: seq<Walk>): seq<Field>
    requires |entries| == |parts|
  {
    if parts == [] then []
    else
      var n := |parts| - 1;
      Assignments(entries[..n], parts[..n]) + (if parts[n].Walk? then [Field(entries[n].key, Shown(parts[n]))] else [])
  }

  /** The record after a sequence of assignments: each key once, where it was first assigned, with the value assigned last. */
  function Record(written: seq<Field>): (fields: seq<Field>)
    ensures |fields| == |Keys(written)|
  {
    KeysAreAssigned(written);
    seq(|Keys(written)|, i requires 0 <= i < |Keys(written)| => Field(Keys(written)[i], Values(written)[Keys(written)[i]]))
  }

  function Keys(written: seq<Field>): seq<string> {
    if written == [] then []
    else
      var earlier := Keys(written[..|written| - 1]);
      var key := written[|written| - 1].key;
      if key in earlier then earlier else earlier + [key]
  }

  function Values(written: seq<Field>): map<string, Output> {
    if written == [] then map[]
    else
      var last := written[|written| - 1];
      Values(written[..|written| - 1])[last.key := last.value]
  }

  lemma {:induction false} KeysAreAssigned(written: seq<Field>)
    ensures forall key :: key in Keys(written) <==> key in Values(written)
    ensures forall i, j | 0 <= i < j < |Keys(written)| :: Keys(written)[i] != Keys(written)[j]
  {
    if written != [] {
      KeysAreAssigned(written[..|written| - 1]);
    }
  }

  /* ---- The program follows the rules ---- */

  /** Assigning to a record writes the value in place, or adds the key at the end. */
  lemma {:induction false} SetEntryAt(fields: seq<Field>, key: string, value: Output, k: nat)
    requires k <= |fields| && (forall i | 0 <= i < k :: fields[i].key != key) && (k < |fields| ==> fields[k].key == key)
    ensures SetEntry(fields, key, value) == if k < |fields| then fields[k := Field(key, value)] else fields + [Field(key, value)]
  {
    if k > 0 {
      SetEntryAt(fields[1..], key, value, k - 1);
      assert fields == [fields[0]] + fields[1..];
    } else if fields != [] {
      assert fields[0 := Field(key, value)] == [Field(key, value)] + fields[1..];
    }
  }

  lemma OneMoreAssignment(written: seq<Field>, key: string, value: Output)
    ensures SetEntry(Record(written), key, value) == Record(written + [Field(key, value)])
  {
    hide Values, SetEntry, Record, Keys;
    var more := written + [Field(key, value)];
    var keys := Keys(written);
    KeysGrow(written, Field(key, value));
    ValuesGrow(written, Field(key, value));
    KeysAreAssigned(written);
    RecordAt(written);
    RecordAt(more);
    var k := if key in keys then Position(keys, key) else |keys|;
    SetEntryAt(Record(written), key, value, k);
    RecordsAgree(Record(written), Record(more), keys, Field(key, value), k);
  }

  lemma KeysGrow(written: seq<Field>, last: Field)
    ensures Keys(written + [last]) == if last.key in Keys(written) then Keys(written) else Keys(written) + [last.key]
  {
    assert (written + [last])[..|written|] == written;
  }

  /** One assignment more changes one place of a record. */
  lemma RecordsAgree(before: seq<Field>, after: seq<Field>, keys: seq<string>, last: Field, k: nat)
    requires k <= |keys| == |before| && |after| == (if k < |keys| then |keys| else |keys| + 1)
    requires forall i | 0 <= i < |keys| && i != k :: after[i] == before[i]
    requires after[k] == last
    ensures after == if k < |before| then before[k := last] else before + [last]
  {
  }

  lemma RecordAt(written: seq<Field>)
    ensures |Record(written)| == |Keys(written)|
    ensures forall i | 0 <= i < |Keys(written)| ::
              Keys(written)[i] in Values(written) && Record(written)[i] == Field(Keys(written)[i], Values(written)[Keys(written)[i]])
  {
    KeysAreAssigned(written);
  }

  ghost function Position(keys: seq<string>, key: string): (k: nat)
    requires key in keys
    ensures k < |keys| && keys[k] == key
  {
    var k :| 0 <= k < |keys| && keys[k] == key;
    k
  }

  lemma ValuesGrow(written: seq<Field>, last: Field)
    ensures Values(written + [last]) == Values(written)[last.key := last.value]
  {
    assert (written + [last])[..|written|] == written;
  }

  lemma ErrorTypeIsIt(policy: Policy, node: Node, t: string)
    requires node.ErrorNode?
    ensures IsErrorType(policy, node.name, node.typ, t) <==> t == ErrorType(policy, node)
  {
    forall s
      ensures IsTypeName(s) <==> TypePattern(s)
    {
      TypeNamesMatchThePattern(s);
    }
    hide IsTypeName, TypePattern;
  }

  lemma NothingExpanded(seen: set<Ref>)
    ensures Expanded([]) == {} && seen + {} == seen
  {
  }

  /** The objects expanded before and including one more part. */
  lemma ExpandedWith(seen: set<Ref>, parts: seq<Walk>, k: nat)
    requires k < |parts|
    ensures seen + Expanded(parts[..k + 1])
            == if parts[k].Walk? then seen + Expanded(parts[..k]) + parts[k].expanded else seen + Expanded(parts[..k])
  {
    assert parts[..k + 1][..k] == parts[..k];
  }

  lemma OneMoreItem(h: Heap, policy: Policy, items: seq<Read>, seen: set<Ref>, depth: nat, k: nat)
    requires depth <= MAXIMUM_DEPTH && k < |items| && forall i | 0 <= i < |items| :: items[i].Gives?
    ensures
      var (earlier, between) := SanitizeItems(h, policy, items[..k], seen, depth);
      SanitizeItems(h, policy, items[..k + 1], seen, depth) ==
        if earlier.Escaped? then (Escaped, between)
        else
          var (last, after) := SanitizeValue(h, policy, items[k].value, between, depth);
          (if last.Escaped? then Escaped else Done(earlier.value + [last.value]), after)
  {
    hide SanitizeValue;
    assert items[..k + 1][..k] == items[..k];
  }

  lemma OneMoreEntry(h: Heap, policy: Policy, entries: seq<Slot>, seen: set<Ref>, depth: nat, k: nat)
    requires depth <= MAXIMUM_DEPTH && k < |entries|
    ensures
      var (earlier, between) := SanitizeEntries(h, policy, entries[..k], seen, depth);
      var (last, after) := SanitizeEntry(h, policy, entries[k], between, depth);
      SanitizeEntries(h, policy, entries[..k + 1], seen, depth)
      == (if last.None? then earlier else SetEntry(earlier, entries[k].key, last.value), after)
  {
    hide SanitizeEntry, SetEntry;
    assert entries[..k + 1][..k] == entries[..k];
  }

  lemma OneMorePart(entries: seq<Slot>, parts: seq<Walk>, k: nat)
    requires k < |parts| == |entries|
    ensures Assignments(entries[..k + 1], parts[..k + 1])
            == Assignments(entries[..k], parts[..k]) + if parts[k].Walk? then [Field(entries[k].key, Shown(parts[k]))] else []
  {
    assert entries[..k + 1][..k] == entries[..k] && parts[..k + 1][..k] == parts[..k];
  }

  /** A walk gives what the program puts out and the objects it has expanded. */
  lemma {:induction false} WalkIsOutput(h: Heap, policy: Policy, v: Value, seen: set<Ref>, depth: nat, w: Walk)
    requires depth <= MAXIMUM_DEPTH && Renders(h, policy, v, seen, depth, w)
    ensures w.Walk? && SanitizeValue(h, policy, v, seen, depth) == (w.result, seen + w.expanded)
    decreases w, 1
  {
    hide SanitizeItems, SanitizeEntries, RendersContainer, IsErrorType, ErrorType;
    NothingExpanded(seen);
    if v.Object? {
      var node := At(h, v.ref);
      if node.ErrorNode? {
        ErrorTypeIsIt(policy, node, w.result.value.typ);
      } else if node.ArrayNode? || node.RecordNode? || node.KeysThrowNode? {
        ContainerIsOutput(h, policy, v.ref, seen, depth, w);
      }
    }
  }

  lemma {:induction false} ContainerIsOutput(h: Heap, policy: Policy, r: Ref, seen: set<Ref>, depth: nat, w: Walk)
    requires depth <= MAXIMUM_DEPTH && RendersContainer(h, policy, r, seen, depth, w)
    requires At(h, r).ArrayNode? || At(h, r).RecordNode? || At(h, r).KeysThrowNode?
    ensures w.Walk? && SanitizeObject(h, policy, r, seen, depth) == (w.result, seen + w.expanded)
    decreases w, 0
  {
    hide SanitizeItems, SanitizeEntries, RendersItems, RendersEntries, Expanded, SetEntry;
    NothingExpanded(seen);
    NothingExpanded(seen + {r});
    var node := At(h, r);
    if depth < MAXIMUM_DEPTH && r !in seen {
      assert seen + ({r} + Expanded(w.parts)) == seen + {r} + Expanded(w.parts);
      if node.ArrayNode? {
        ArrayIsOutput(h, policy, node.items, seen + {r}, depth + 1, w);
      } else if node.RecordNode? {
        RecordIsOutput(h, policy, node.entries, seen + {r}, depth + 1, w);
      }
    }
  }

  /** The part of an array's treatment after the array itself has been marked. */
  lemma {:induction false} ArrayIsOutput(h: Heap, policy: Policy, items: seq<Read>, seen: set<Ref>, depth: nat, w: Walk)
    requires depth <= MAXIMUM_DEPTH && w.Walk? && RendersItems(h, policy, items, seen, depth, w)
    ensures
      var slice := Take(items, MAXIMUM_ENTRIES);
      if exists i :: 0 <= i < |slice| && slice[i].Throws? then w.result == Escaped && Expanded(w.parts) == {}
      else
        var (result, after) := SanitizeItems(h, policy, slice, seen, depth);
        && after == seen + Expanded(w.parts)
        && w.result == if result.Escaped? then Escaped
                       else Done(OutArray(result.value + if |items| > MAXIMUM_ENTRIES then [OutMarker(Truncated)] else []))
    decreases w.parts, |items| + 1
  {
    hide SanitizeItems, Renders, Expanded;
    NothingExpanded(seen);
    var slice := Take(items, MAXIMUM_ENTRIES);
    var n := FirstHundred(|items|);
    assert |slice| == n && forall i | 0 <= i < n :: slice[i] == items[i];
    if forall i | 0 <= i < n :: items[i].Gives? {
      var done := if w.result.Escaped? then |w.parts| - 1 else n;
      var outs := PrefixIsOutput(h, policy, slice, seen, depth, w.parts, done);
      assert slice[..n] == slice;
      if w.result.Escaped? {
        EscapeIsOutput(h, policy, slice, seen, depth, w.parts, outs);
      } else {
        assert w.parts[..n] == w.parts;
        assert w.result.value.items == outs + if |items| > MAXIMUM_ENTRIES then [OutMarker(Truncated)] else [];
      }
    }
  }

  /** The items before the first that escapes. */
  lemma {:induction false} PrefixIsOutput(h: Heap, policy: Policy, items: seq<Read>, seen: set<Ref>, depth: nat, parts: seq<Walk>, k: nat)
    returns (outs: seq<Output>)
    requires depth <= MAXIMUM_DEPTH && k <= |parts| <= |items| && forall i | 0 <= i < |items| :: items[i].Gives?
    requires forall i | 0 <= i < |parts| ::
               parts[i].Walk? && Renders(h, policy, items[i].value, seen + Expanded(parts[..i]), depth, parts[i])
    requires forall i | 0 <= i < k :: parts[i].result.Done?
    ensures SanitizeItems(h, policy, items[..k], seen, depth) == (Done(outs), seen + Expanded(parts[..k]))
    ensures |outs| == k && forall i | 0 <= i < k :: parts[i].result == Done(outs[i])
    decreases parts, k
  {
    hide Renders, Expanded, SanitizeItems;
    outs := [];
    if k == 0 {
      NothingExpanded(seen);
      NoItems(h, policy, seen, depth);
      assert parts[..0] == [] && items[..0] == [];
    } else {
      outs := PrefixIsOutput(h, policy, items, seen, depth, parts, k - 1);
      WalkIsOutput(h, policy, items[k - 1].value, seen + Expanded(parts[..k - 1]), depth, parts[k - 1]);
      hide SanitizeValue;
      OneMoreItem(h, policy, items, seen, depth, k - 1);
      ExpandedWith(seen, parts, k - 1);
      outs := outs + [parts[k - 1].result.value];
    }
  }

  lemma NoItems(h: Heap, policy: Policy, seen: set<Ref>, depth: nat)
    requires depth <= MAXIMUM_DEPTH
    ensures SanitizeItems(h, policy, [], seen, depth) == (Done([]), seen)
    ensures SanitizeEntries(h, policy, [], seen, depth) == ([], seen)
  {
  }

  /** The item that escapes ends the array. */
  lemma {:induction false} EscapeIsOutput(h: Heap, policy: Policy, items: seq<Read>, seen: set<Ref>, depth: nat, parts: seq<Walk>, outs: seq<Output>)
    requires depth <= MAXIMUM_DEPTH && 0 < |parts| <= |items| && forall i | 0 <= i < |items| :: items[i].Gives?
    requires
      var k := |parts| - 1;
      && SanitizeItems(h, policy, items[..k], seen, depth) == (Done(outs), seen + Expanded(parts[..k]))
      && parts[k].Walk? && parts[k].result.Escaped?
      && Renders(h, policy, items[k].value, seen + Expanded(parts[..k]), depth, parts[k])
    ensures SanitizeItems(h, policy, items, seen, depth) == (Escaped, seen + Expanded(parts))
    decreases parts, 0
  {
    hide Renders, Expanded, SanitizeItems;
    var k := |parts| - 1;
    WalkIsOutput(h, policy, items[k].value, seen + Expanded(parts[..k]), depth, parts[k]);
    hide SanitizeValue;
    OneMoreItem(h, policy, items, seen, depth, k);
    ExpandedWith(seen, parts, k);
    assert parts[..k + 1] == parts;
    EscapeAtPrefix(h, policy, items, k + 1, seen, depth);
  }

  lemma {:induction false} RecordIsOutput(h: Heap, policy: Policy, entries: seq<Slot>, seen: set<Ref>, depth: nat, w: Walk)
    requires depth <= MAXIMUM_DEPTH && w.Walk? && RendersEntries(h, policy, entries, seen, depth, w)
    ensures
      var (result, after) := SanitizeEntries(h, policy, Take(entries, MAXIMUM_ENTRIES), seen, depth);
      && after == seen + Expanded(w.parts)
      && w.result == Done(OutRecord(if |entries| > MAXIMUM_ENTRIES then SetEntry(result, "truncated", OutMarker(Truncated)) else result))
    decreases w.parts, |entries| + 1
  {
    hide SanitizeEntries, Renders, SetEntry, Record, Assignments;
    var n := FirstHundred(|entries|);
    var slice := Take(entries, MAXIMUM_ENTRIES);
    assert slice == entries[..n];
    EntriesAreOutput(h, policy, slice, seen, depth, w.parts, n);
    assert slice[..n] == slice && w.parts[..n] == w.parts;
    var assignments := Assignments(entries[..n], w.parts);
    OneMoreAssignment(assignments, "truncated", OutMarker(Truncated));
    assert assignments + [] == assignments;
  }

  lemma {:induction false} EntriesAreOutput(h: Heap, policy: Policy, entries: seq<Slot>, seen: set<Ref>, depth: nat, parts: seq<Walk>, k: nat)
    requires depth <= MAXIMUM_DEPTH && k <= |parts| == |entries|
    requires forall i | 0 <= i < |parts| :: RendersEntry(h, policy, entries[i], seen + Expanded(parts[..i]), depth, parts[i])
    ensures SanitizeEntries(h, policy, entries[..k], seen, depth)
            == (Record(Assignments(entries[..k], parts[..k])), seen + Expanded(parts[..k]))
    decreases parts, k
  {
    hide Renders, RendersEntry, Record, SetEntry, Assignments, Expanded, SanitizeEntries;
    if k == 0 {
      NothingExpanded(seen);
      NoItems(h, policy, seen, depth);
      EmptyRecord();
      assert parts[..0] == [] && entries[..0] == [];
    } else {
      var n := k - 1;
      EntriesAreOutput(h, policy, entries, seen, depth, parts, n);
      EntryIsOutput(h, policy, entries[n], seen + Expanded(parts[..n]), depth, parts[n], parts);
      hide SanitizeEntry;
      OneMoreEntry(h, policy, entries, seen, depth, n);
      OneMorePart(entries, parts, n);
      ExpandedWith(seen, parts, n);
      if parts[n].Walk? {
        OneMoreAssignment(Assignments(entries[..n], parts[..n]), entries[n].key, Shown(parts[n]));
      } else {
        assert Assignments(entries[..n], parts[..n]) + [] == Assignments(entries[..n], parts[..n]);
      }
    }
  }

  lemma EmptyRecord()
    ensures Record(Assignments([], [])) == []
  {
  }

  lemma {:induction false} EntryIsOutput(h: Heap, policy: Policy, entry: Slot, seen: set<Ref>, depth: nat, w: Walk, parts: seq<Walk>)
    requires depth <= MAXIMUM_DEPTH && w in parts && RendersEntry(h, policy, entry, seen, depth, w)
    ensures SanitizeEntry(h, policy, entry, seen, depth) == if w.Omitted? then (None, seen) else (Some(Shown(w)), seen + w.expanded)
    decreases parts, 0
  {
    hide Renders;
    NothingExpanded(seen);
    if !ForbiddenKey(entry.key) && !policy.sensitive(entry.key) && entry.read.Gives? {
      WalkIsOutput(h, policy, entry.read.value, seen, depth, w);
      hide SanitizeValue;
    }
  }

  /* ---- Every value has a walk ---- */

  /** The walk of a value, built in the order of the program. */
  lemma {:induction false} FindWalk(h: Heap, policy: Policy, v: Value, seen: set<Ref>, depth: nat) returns (w: Walk)
    requires depth <= MAXIMUM_DEPTH
    ensures Renders(h, policy, v, seen, depth, w)
    decreases MAXIMUM_DEPTH - depth, 1
  {
    hide RendersContainer, IsErrorType, ErrorType;
    match v
    case Text(s) => w := Leaf(OutText(policy.scrub(s)));
    case BigInt(digits) => w := Leaf(OutText(digits));
    case Function => w := Leaf(OutMarker(FunctionMarker));
    case Symbol => w := Leaf(OutMarker(SymbolMarker));
    case Number(printed) => w := Leaf(OutPlain(printed));
    case NonFiniteNumber => w := Leaf(OutMarker(NonFinite));
    case Null => w := Leaf(OutNull);
    case Plain(printed) => w := Leaf(OutPlain(printed));
    case Object(r) =>
      var node := At(h, r);
      match node
      case HostileNode => w := Walk(Escaped, {}, []);
      case ErrorNode(name, typ) =>
        var t := ErrorType(policy, node);
        ErrorTypeIsIt(policy, node, t);
        w := Leaf(OutError(t));
      case DateNode(iso) => w := Leaf(if iso.Some? then OutText(iso.value) else OutMarker(Unserializable));
      case BufferNode => w := Leaf(OutMarker(Binary));
      case ArrayNode(_) => w := FindContainer(h, policy, r, seen, depth);
      case RecordNode(_) => w := FindContainer(h, policy, r, seen, depth);
      case KeysThrowNode => w := FindContainer(h, policy, r, seen, depth);
  }

  lemma {:induction false} FindContainer(h: Heap, policy: Policy, r: Ref, seen: set<Ref>, depth: nat) returns (w: Walk)
    requires depth <= MAXIMUM_DEPTH
    requires At(h, r).ArrayNode? || At(h, r).RecordNode? || At(h, r).KeysThrowNode?
    ensures RendersContainer(h, policy, r, seen, depth, w)
    decreases MAXIMUM_DEPTH - depth, 0
  {
    hide RendersItems, RendersEntries, Expanded;
    var node := At(h, r);
    if depth >= MAXIMUM_DEPTH {
      w := Leaf(OutMarker(Truncated));
    } else if r in seen {
      w := Leaf(OutMarker(Circular));
    } else if node.ArrayNode? {
      w := FindArray(h, policy, r, node.items, seen + {r}, depth + 1);
    } else if node.RecordNode? {
      w := FindRecord(h, policy, r, node.entries, seen + {r}, depth + 1);
    } else {
      NothingExpanded(seen);
      w := Walk(Escaped, {r} + Expanded([]), []);
    }
  }

  lemma {:induction false} FindArray(h: Heap, policy: Policy, r: Ref, items: seq<Read>, seen: set<Ref>, depth: nat) returns (w: Walk)
    requires depth <= MAXIMUM_DEPTH
    ensures w.Walk? && w.expanded == {r} + Expanded(w.parts) && RendersItems(h, policy, items, seen, depth, w)
    decreases MAXIMUM_DEPTH - depth, 4
  {
    hide Renders, Expanded;
    var n := FirstHundred(|items|);
    if exists i | 0 <= i < n :: items[i].Throws? {
      w := Walk(Escaped, {r} + Expanded([]), []);
    } else {
      var parts := FindItems(h, policy, items, seen, depth, n);
      if parts != [] && parts[|parts| - 1].result.Escaped? {
        w := Walk(Escaped, {r} + Expanded(parts), parts);
      } else {
        var shown := seq(n, i requires 0 <= i < n => parts[i].result.value);
        w := Walk(Done(OutArray(shown + if |items| > 100 then [OutMarker(Truncated)] else [])), {r} + Expanded(parts), parts);
      }
    }
  }

  lemma {:induction false} FindItems(h: Heap, policy: Policy, items: seq<Read>, seen: set<Ref>, depth: nat, k: nat) returns (parts: seq<Walk>)
    requires depth <= MAXIMUM_DEPTH && k <= |items| && forall i | 0 <= i < k :: items[i].Gives?
    ensures |parts| <= k
    ensures forall i | 0 <= i < |parts| ::
              parts[i].Walk? && Renders(h, policy, items[i].value, seen + Expanded(parts[..i]), depth, parts[i])
    ensures forall i | 0 <= i < |parts| - 1 :: parts[i].result.Done?
    ensures |parts| < k ==> parts != [] && parts[|parts| - 1].result.Escaped?
    decreases MAXIMUM_DEPTH - depth, 3, k
  {
    hide Renders, Expanded;
    parts := [];
    if k > 0 {
      parts := FindItems(h, policy, items, seen, depth, k - 1);
      if |parts| == k - 1 && (parts == [] || parts[k - 2].result.Done?) {
        var earlier := parts;
        var last := FindWalk(h, policy, items[k - 1].value, seen + Expanded(earlier), depth);
        WalkIsOutput(h, policy, items[k - 1].value, seen + Expanded(earlier), depth, last);
        parts := earlier + [last];
        assert parts[..k - 1] == earlier;
        assert forall i | 0 <= i < k - 1 :: parts[..i] == earlier[..i];
      }
    }
  }

  lemma {:induction false} FindRecord(h: Heap, policy: Policy, r: Ref, entries: seq<Slot>, seen: set<Ref>, depth: nat) returns (w: Walk)
    requires depth <= MAXIMUM_DEPTH
    ensures w.Walk? && w.expanded == {r} + Expanded(w.parts) && RendersEntries(h, policy, entries, seen, depth, w)
    decreases MAXIMUM_DEPTH - depth, 4
  {
    hide RendersEntry, Expanded, Record, Assignments;
    var n := FirstHundred(|entries|);
    var parts := FindEntries(h, policy, entries, seen, depth, n);
    var written := Assignments(entries[..n], parts) + (if |entries| > 100 then [Field("truncated", OutMarker(Truncated))] else []);
    w := Walk(Done(OutRecord(Record(written))), {r} + Expanded(parts), parts);
  }

  lemma {:induction false} FindEntries(h: Heap, policy: Policy, entries: seq<Slot>, seen: set<Ref>, depth: nat, k: nat) returns (parts: seq<Walk>)
    requires depth <= MAXIMUM_DEPTH && k <= |entries|
    ensures |parts| == k
    ensures forall i | 0 <= i < k :: RendersEntry(h, policy, entries[i], seen + Expanded(parts[..i]), depth, parts[i])
    decreases MAXIMUM_DEPTH - depth, 3, k
  {
    hide RendersEntry, Expanded;
    parts := [];
    if k > 0 {
      var earlier := FindEntries(h, policy, entries, seen, depth, k - 1);
      var last := FindEntry(h, policy, entries[k - 1], seen + Expanded(earlier), depth);
      parts := earlier + [last];
      assert parts[..k - 1] == earlier;
      assert forall i | 0 <= i < k - 1 :: parts[..i] == earlier[..i];
    }
  }

  lemma {:induction false} FindEntry(h: Heap, policy: Policy, entry: Slot, seen: set<Ref>, depth: nat) returns (w: Walk)
    requires depth <= MAXIMUM_DEPTH
    ensures RendersEntry(h, policy, entry, seen, depth, w)
    decreases MAXIMUM_DEPTH - depth, 2
  {
    hide Renders;
    if entry.key == "__proto__" || entry.key == "constructor" || entry.key == "prototype" {
      w := Omitted;
    } else if policy.sensitive(entry.key) {
      w := Leaf(OutMarker(Redacted));
    } else if entry.read.Throws? {
      w := Leaf(OutMarker(Unserializable));
    } else {
      w := FindWalk(h, policy, entry.read.value, seen, depth);
      WalkIsOutput(h, policy, entry.read.value, seen, depth, w);
    }
  }

  /** The rules have exactly one outcome, and it is what the sanitizer returns. */
  lemma SanitizedIsRendered(h: Heap, policy: Policy, v: Value, o: Output)
    ensures SanitizeLogValue(h, policy, v) == o <==> exists w: Walk :: w.Walk? && Renders(h, policy, v, {}, 0, w) && Shown(w) == o
  {
    hide Renders, SanitizeValue;
    var found := FindWalk(h, policy, v, {}, 0);
    WalkIsOutput(h, policy, v, {}, 0, found);
    assert Shown(found) == SanitizeLogValue(h, policy, v);
    forall w: Walk | w.Walk? && Renders(h, policy, v, {}, 0, w)
      ensures Shown(w) == SanitizeLogValue(h, policy, v)
    {
      WalkIsOutput(h, policy, v, {}, 0, w);
    }
  }

  /* ---- Where texts come from ---- */

  /** The text is a scrubbed text or the digits of a bigint. */
  predicate FromValue(policy: Policy, v: Value, s: string) {
    (v.Text? && s == policy.scrub(v.s)) || (v.BigInt? && s == v.digits)
  }

  /** The text is that of a date, or of a value in a public slot. */
  predicate FromNode(policy: Policy, node: Node, s: string) {
    match node
    case DateNode(iso) => iso == Some(s)
    case ArrayNode(items) => exists i | 0 <= i < |items| :: items[i].Gives? && FromValue(policy, items[i].value, s)
    case RecordNode(entries) =>
      exists i | 0 <= i < |entries| ::
        Public(policy, entries[i].key) && entries[i].read.Gives? && FromValue(policy, entries[i].read.value, s)
    case _ => false
  }

  /** Every text of an output comes from the value or from a node of the view, and every error type from an error in it. */
  predicate Sourced(h: Heap, policy: Policy, view: set<Ref>, v: Value, o: Output) {
    match o
    case OutText(s) => FromValue(policy, v, s) || exists r | r in view :: FromNode(policy, At(h, r), s)
    case OutError(t) => exists r | r in view :: At(h, r).ErrorNode? && IsErrorType(policy, At(h, r).name, At(h, r).typ, t)
    case OutArray(items) => forall i | 0 <= i < |items| :: Sourced(h, policy, view, v, items[i])
    case OutRecord(fields) => forall i | 0 <= i < |fields| :: Sourced(h, policy, view, v, fields[i].value)
    case _ => true
  }

  /** What a slot of a node of the view shows is sourced in the view alone. */
  lemma {:induction false} SlotIsSourced(h: Heap, policy: Policy, view: set<Ref>, v: Value, slot: Value, o: Output)
    requires Sourced(h, policy, view, slot, o)
    requires forall s | FromValue(policy, slot, s) :: exists r | r in view :: FromNode(policy, At(h, r), s)
    ensures Sourced(h, policy, view, v, o)
    decreases o
  {
    hide FromNode, IsErrorType;
    match o
    case OutArray(items) =>
      forall i | 0 <= i < |items| ensures Sourced(h, policy, view, v, items[i]) {
        SlotIsSourced(h, policy, view, v, slot, items[i]);
      }
    case OutRecord(fields) =>
      forall i | 0 <= i < |fields| ensures Sourced(h, policy, view, v, fields[i].value) {
        SlotIsSourced(h, policy, view, v, slot, fields[i].value);
      }
    case _ =>
  }

  lemma {:induction false} WalkIsSourced(h: Heap, policy: Policy, view: set<Ref>, v: Value, seen: set<Ref>, depth: nat, w: Walk)
    requires PubliclyEqual(policy, view, h, h) && InView(view, v) && Renders(h, policy, v, seen, depth, w)
    ensures w.Walk? && (w.result.Done? ==> Sourced(h, policy, view, v, w.result.value))
    decreases w, 1
  {
    hide RendersItems, RendersEntries, IsErrorType, Expanded, PubliclyEqual;
    if v.Object? && !(depth >= 8 || v.ref in seen) {
      var node := At(h, v.ref);
      assert SameNode(policy, view, node, node) by {
        ViewIsClosed(h, policy, view, v.ref);
      }
      if node.ArrayNode? {
        ItemsAreSourced(h, policy, view, v, node.items, seen + {v.ref}, depth + 1, w);
      } else if node.RecordNode? {
        EntriesAreSourced(h, policy, view, v, node.entries, seen + {v.ref}, depth + 1, w);
      }
    }
  }

  lemma ViewIsClosed(h: Heap, policy: Policy, view: set<Ref>, r: Ref)
    requires PubliclyEqual(policy, view, h, h) && r in view
    ensures SameNode(policy, view, At(h, r), At(h, r))
  {
  }

  lemma {:induction false} ItemsAreSourced(h: Heap, policy: Policy, view: set<Ref>, v: Value, items: seq<Read>, seen: set<Ref>, depth: nat, w: Walk)
    requires PubliclyEqual(policy, view, h, h) && InView(view, v)
    requires v.Object? && At(h, v.ref) == ArrayNode(items) && SameNode(policy, view, At(h, v.ref), At(h, v.ref))
    requires w.Walk? && RendersItems(h, policy, items, seen, depth, w)
    ensures w.result.Done? ==> Sourced(h, policy, view, v, w.result.value)
    decreases w.parts
  {
    hide Renders, PubliclyEqual, FromValue, Expanded;
    if w.result.Done? {
      var n := FirstHundred(|items|);
      forall i | 0 <= i < n
        ensures Sourced(h, policy, view, v, w.result.value.items[i])
      {
        WalkIsSourced(h, policy, view, items[i].value, seen + Expanded(w.parts[..i]), depth, w.parts[i]);
        forall s | FromValue(policy, items[i].value, s)
          ensures exists r | r in view :: FromNode(policy, At(h, r), s)
        {
          assert FromNode(policy, At(h, v.ref), s);
        }
        SlotIsSourced(h, policy, view, v, items[i].value, w.result.value.items[i]);
      }
    }
  }

  lemma {:induction false} EntriesAreSourced(h: Heap, policy: Policy, view: set<Ref>, v: Value, entries: seq<Slot>, seen: set<Ref>, depth: nat, w: Walk)
    requires PubliclyEqual(policy, view, h, h) && InView(view, v)
    requires v.Object? && At(h, v.ref) == RecordNode(entries) && SameNode(policy, view, At(h, v.ref), At(h, v.ref))
    requires w.Walk? && RendersEntries(h, policy, entries, seen, depth, w)
    ensures w.result.Done? ==> Sourced(h, policy, view, v, w.result.value)
    decreases w.parts
  {
    hide Renders, PubliclyEqual, FromValue, Expanded, Record, Assignments;
    var n := FirstHundred(|entries|);
    forall i | 0 <= i < n && w.parts[i].Walk?
      ensures Sourced(h, policy, view, v, Shown(w.parts[i]))
    {
      if Public(policy, entries[i].key) && entries[i].read.Gives? {
        var slot := entries[i].read.value;
        WalkIsSourced(h, policy, view, slot, seen + Expanded(w.parts[..i]), depth, w.parts[i]);
        forall s | FromValue(policy, slot, s)
          ensures exists r | r in view :: FromNode(policy, At(h, r), s)
        {
          assert FromNode(policy, At(h, v.ref), s);
        }
        SlotIsSourced(h, policy, view, v, slot, Shown(w.parts[i]));
      }
    }
    AssignedIsSourced(h, policy, view, v, entries[..n], w.parts);
    var written := Assignments(entries[..n], w.parts) + (if |entries| > 100 then [Field("truncated", OutMarker(Truncated))] else []);
    RecordShowsAssigned(written);
  }

  lemma {:induction false} AssignedIsSourced(h: Heap, policy: Policy, view: set<Ref>, v: Value, entries: seq<Slot>, parts: seq<Walk>)
    requires |entries| == |parts|
    requires forall i | 0 <= i < |parts| && parts[i].Walk? :: Sourced(h, policy, view, v, Shown(parts[i]))
    ensures forall f | f in Assignments(entries, parts) :: Sourced(h, policy, view, v, f.value)
  {
    hide Sourced, Shown;
    if parts != [] {
      AssignedIsSourced(h, policy, view, v, entries[..|parts| - 1], parts[..|parts| - 1]);
    }
  }

  lemma {:induction false} ValuesAreAssigned(written: seq<Field>)
    ensures forall key | key in Values(written) :: Field(key, Values(written)[key]) in written
  {
    if written != [] {
      ValuesAreAssigned(written[..|written| - 1]);
    }
  }

  /** Every field of the record was assigned. */
  lemma RecordShowsAssigned(written: seq<Field>)
    ensures forall i | 0 <= i < |Record(written)| :: Record(written)[i] in written
  {
    RecordAt(written);
    ValuesAreAssigned(written);
  }

  /** No text reaches the log but scrubbed texts, digits, dates and error types, all from the public view of the value. */
  lemma TextsAreScrubbed(h: Heap, policy: Policy, view: set<Ref>, v: Value)
    requires PubliclyEqual(policy, view, h, h) && InView(view, v)
    ensures Sourced(h, policy, view, v, SanitizeLogValue(h, policy, v))
  {
    hide Renders, SanitizeValue, PubliclyEqual, InView;
    var w := FindWalk(h, policy, v, {}, 0);
    WalkIsOutput(h, policy, v, {}, 0, w);
    WalkIsSourced(h, policy, view, v, {}, 0, w);
  }
}
