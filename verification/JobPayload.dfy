/** The job-payload validator: a depth-limited walk with a set of ancestors that every exit restores. */
module JobPayload {
  import opened Wrappers

  type Ref = nat

  datatype Value = JsonNull | Text(s: string) | Boolean(b: bool) | Number(finite: bool) | Unserializable | Object(ref: Ref)

  datatype Read = Gives(value: Value) | Throws

  datatype Slot = Slot(key: string, read: Read)

  /** An array, an object whose prototype is plain or null, or anything else. */
  datatype Node = ArrayNode(items: seq<Read>) | PlainRecord(entries: seq<Slot>) | OtherObject

  type Heap = map<Ref, Node>

  datatype Fault = TooDeep | NonFiniteNumber | NotJson | Cycle | NotPlain | ForbiddenField | ReadFailed

  datatype Verdict = Accepted | Rejected(fault: Fault)

  const MAXIMUM_DEPTH := 12

  const FORBIDDEN_KEYS := {
    "accesstoken", "address", "authorization", "buffer", "content", "coordinates", "cpf", "email", "evidencecontent",
    "file", "idempotencykey", "latitude", "longitude", "narrative", "password", "phone", "refreshtoken", "report",
    "secret", "token"
  }

  /** Lower case of the characters the key pattern keeps. The Kelvin sign is the one other character that becomes
      an ASCII letter. */
  function Lower(c: char): char {
    if 'A' <= c <= 'Z' then c - 'A' + 'a' else if c == '\U{212A}' then 'k' else c
  }

  /** Letters and digits only, in lower case. The pattern ignores case, so it also keeps the long s. */
  function NormalizedKey(key: string): string {
    if key == "" then ""
    else
      var c := Lower(key[0]);
      (if 'a' <= c <= 'z' || '0' <= c <= '9' || c == '\U{017F}' then [c] else "") + NormalizedKey(key[1..])
  }

  predicate ForbiddenKey(key: string) {
    NormalizedKey(key) in FORBIDDEN_KEYS
  }

  /** The key spells the word: letters of either case, and anything but letters and digits in between. */
  predicate SpellsWord(key: string, word: string) {
    if key == "" then word == ""
    else
      var c := key[0];
      if 'a' <= c <= 'z' || '0' <= c <= '9' || c == '\U{017F}' then word != "" && word[0] == c && SpellsWord(key[1..], word[1..])
      else if 'A' <= c <= 'Z' then word != "" && word[0] == c - 'A' + 'a' && SpellsWord(key[1..], word[1..])
      else if c == '\U{212A}' then word != "" && word[0] == 'k' && SpellsWord(key[1..], word[1..])
      else SpellsWord(key[1..], word)
  }

  lemma {:induction false} NormalizedSpells(key: string, word: string)
    ensures NormalizedKey(key) == word <==> SpellsWord(key, word)
  {
    if key != "" {
      if word != "" {
        NormalizedSpells(key[1..], word[1..]);
        assert word == [word[0]] + word[1..];
      }
      NormalizedSpells(key[1..], word);
    }
  }

  /** The forbidden keys are the spellings of twenty words. */
  lemma ForbiddenKeysAreSpellings(key: string)
    ensures ForbiddenKey(key) <==>
            || SpellsWord(key, "accesstoken") || SpellsWord(key, "address") || SpellsWord(key, "authorization")
            || SpellsWord(key, "buffer") || SpellsWord(key, "content") || SpellsWord(key, "coordinates") || SpellsWord(key, "cpf")
            || SpellsWord(key, "email") || SpellsWord(key, "evidencecontent") || SpellsWord(key, "file")
            || SpellsWord(key, "idempotencykey") || SpellsWord(key, "latitude") || SpellsWord(key, "longitude")
            || SpellsWord(key, "narrative") || SpellsWord(key, "password") || SpellsWord(key, "phone")
            || SpellsWord(key, "refreshtoken") || SpellsWord(key, "report") || SpellsWord(key, "secret") || SpellsWord(key, "token")
  {
    hide SpellsWord, NormalizedKey;
    forall word
      ensures NormalizedKey(key) == word <==> SpellsWord(key, word)
    {
      NormalizedSpells(key, word);
    }
  }

  function At(h: Heap, r: Ref): Node {
    if r in h then h[r] else OtherObject
  }

  /** assertPayloadValue. Depth 13 is already refused, so the walk is bounded. The program is guarded; without the
      guard it is the same walk that never looks at the ancestors. */
  function Check(h: Heap, guarded: bool, v: Value, ancestors: set<Ref>, depth: nat): Verdict
    requires depth <= MAXIMUM_DEPTH + 1
    decreases MAXIMUM_DEPTH + 1 - depth, 0, 0
  {
    if depth > MAXIMUM_DEPTH then Rejected(TooDeep)
    else
      match v
      case JsonNull => Accepted
      case Text(_) => Accepted
      case Boolean(_) => Accepted
      case Number(finite) => if finite then Accepted else Rejected(NonFiniteNumber)
      case Unserializable => Rejected(NotJson)
      case Object(r) =>
        if guarded && r in ancestors then Rejected(Cycle)
        else
          var node := At(h, r);
          if node.ArrayNode? then CheckItems(h, guarded, node.items, ancestors + {r}, depth + 1)
          else if node.PlainRecord? then
            (if exists i :: 0 <= i < |node.entries| && node.entries[i].read.Throws? then Rejected(ReadFailed)
             else CheckEntries(h, guarded, node.entries, ancestors + {r}, depth + 1))
          else Rejected(NotPlain)
  }

  function CheckItems(h: Heap, guarded: bool, items: seq<Read>, ancestors: set<Ref>, depth: nat): Verdict
    requires depth <= MAXIMUM_DEPTH + 1
    decreases MAXIMUM_DEPTH + 1 - depth, 1, |items|
  {
    if items == [] then Accepted
    else
      var earlier := CheckItems(h, guarded, items[..|items| - 1], ancestors, depth);
      if earlier.Rejected? then earlier
      else
        var last := items[|items| - 1];
        if last.Throws? then Rejected(ReadFailed) else Check(h, guarded, last.value, ancestors, depth)
  }

  /** Object.entries has already read every value when the first key is looked at. */
  function CheckEntries(h: Heap, guarded: bool, entries: seq<Slot>, ancestors: set<Ref>, depth: nat): Verdict
    requires depth <= MAXIMUM_DEPTH + 1
    requires forall i | 0 <= i < |entries| :: entries[i].read.Gives?
    decreases MAXIMUM_DEPTH + 1 - depth, 1, |entries|
  {
    if entries == [] then Accepted
    else
      var earlier := CheckEntries(h, guarded, entries[..|entries| - 1], ancestors, depth);
      if earlier.Rejected? then earlier
      else
        var last := entries[|entries| - 1];
        if ForbiddenKey(last.key) then Rejected(ForbiddenField) else Check(h, guarded, last.read.value, ancestors, depth)
  }

  /* ---- The specification: finite trees ---- */

  /** A finite piece of JSON. */
  datatype Json = Leaf | Array(items: seq<Json>) | Record(items: seq<Json>)

  /** The tree is the complete unfolding of the value, made only of accepted scalars, arrays and plain records
      without a forbidden key. */
  predicate Unfolds(h: Heap, v: Value, t: Json)
    decreases t
  {
    match v
    case JsonNull => t.Leaf?
    case Text(_) => t.Leaf?
    case Boolean(_) => t.Leaf?
    case Number(finite) => finite && t.Leaf?
    case Unserializable => false
    case Object(r) =>
      var node := At(h, r);
      if node.ArrayNode? then
        && t.Array? && |t.items| == |node.items|
        && forall i | 0 <= i < |t.items| :: node.items[i].Gives? && Unfolds(h, node.items[i].value, t.items[i])
      else if node.PlainRecord? then
        && t.Record? && |t.items| == |node.entries|
        && forall i | 0 <= i < |t.items| ::
             && !ForbiddenKey(node.entries[i].key)
             && node.entries[i].read.Gives? && Unfolds(h, node.entries[i].read.value, t.items[i])
      else false
  }

  /** The number of edges on a longest path from the root. */
  function Height(t: Json): nat {
    if t.Leaf? || t.items == [] then 0 else 1 + Tallest(t.items)
  }

  function Tallest(items: seq<Json>): nat
    requires items != []
  {
    var last := Height(items[|items| - 1]);
    if |items| == 1 then last
    else
      var earlier := Tallest(items[..|items| - 1]);
      if earlier >= last then earlier else last
  }

  lemma {:induction false} TallestBounds(items: seq<Json>, levels: nat)
    requires items != []
    ensures Tallest(items) <= levels <==> forall i | 0 <= i < |items| :: Height(items[i]) <= levels
    ensures forall i | 0 <= i < |items| :: Height(items[i]) <= Tallest(items)
  {
    if |items| > 1 {
      var n := |items| - 1;
      TallestBounds(items[..n], levels);
      assert forall i | 0 <= i < n :: items[..n][i] == items[i];
    }
  }

  /** The part below an inner node. */
  lemma HeightBelow(t: Json, levels: nat)
    requires !t.Leaf?
    ensures Height(t) <= levels + 1 <==> forall i | 0 <= i < |t.items| :: Height(t.items[i]) <= levels
    ensures forall i | 0 <= i < |t.items| :: Height(t.items[i]) < Height(t)
  {
    if t.items != [] {
      TallestBounds(t.items, levels);
    }
  }

  /** A value has at most one unfolding. */
  lemma {:induction false} UnfoldingIsUnique(h: Heap, v: Value, t: Json, u: Json)
    requires Unfolds(h, v, t) && Unfolds(h, v, u)
    ensures t == u
    decreases t
  {
    if v.Object? {
      var node := At(h, v.ref);
      forall i | 0 <= i < |t.items|
        ensures t.items[i] == u.items[i]
      {
        UnfoldingIsUnique(h, if node.ArrayNode? then node.items[i].value else node.entries[i].read.value, t.items[i], u.items[i]);
      }
    }
  }

  /** Every ancestor that has an unfolding at all has a taller one than the tree, so none is met again inside it. */
  ghost predicate Outside(h: Heap, ancestors: set<Ref>, t: Json) {
    forall a, u | a in ancestors && Unfolds(h, Object(a), u) :: Height(u) > Height(t)
  }

  /** A value with a finite unfolding is judged by its height alone: accepted, or refused as too deep. */
  lemma {:induction false} FiniteVerdict(h: Heap, guarded: bool, v: Value, t: Json, ancestors: set<Ref>, depth: nat)
    requires depth <= MAXIMUM_DEPTH + 1
    requires Unfolds(h, v, t) && Outside(h, ancestors, t)
    ensures Check(h, guarded, v, ancestors, depth)
            == if Height(t) + depth <= MAXIMUM_DEPTH then Accepted else Rejected(TooDeep)
    decreases t, 0
  {
    hide CheckItems, CheckEntries, Tallest, ForbiddenKey;
    if v.Object? && depth <= MAXIMUM_DEPTH {
      var r := v.ref;
      var node := At(h, r);
      assert r !in ancestors;
      HeightBelow(t, 0);
      forall i | 0 <= i < |t.items|
        ensures Outside(h, ancestors + {r}, t.items[i])
      {
        OutsideBelow(h, r, ancestors, t, i);
      }
      if node.ArrayNode? {
        ItemsVerdict(h, guarded, node.items, t.items, ancestors + {r}, depth + 1);
      } else {
        EntriesVerdict(h, guarded, node.entries, t.items, ancestors + {r}, depth + 1);
      }
      if depth < MAXIMUM_DEPTH {
        HeightBelow(t, MAXIMUM_DEPTH - depth - 1);
      } else if t.items != [] {
        assert Height(t.items[0]) < Height(t);
      }
    }
  }

  lemma OutsideBelow(h: Heap, r: Ref, ancestors: set<Ref>, t: Json, i: nat)
    requires Unfolds(h, Object(r), t) && Outside(h, ancestors, t) && !t.Leaf? && i < |t.items|
    ensures Outside(h, ancestors + {r}, t.items[i])
  {
    HeightBelow(t, 0);
    forall a, u | a in ancestors + {r} && Unfolds(h, Object(a), u)
      ensures Height(u) > Height(t.items[i])
    {
      if a == r {
        UnfoldingIsUnique(h, Object(r), t, u);
      }
    }
  }

  lemma {:induction false} ItemsVerdict(h: Heap, guarded: bool, items: seq<Read>, trees: seq<Json>, ancestors: set<Ref>, depth: nat)
    requires depth <= MAXIMUM_DEPTH + 1 && |items| == |trees|
    requires forall i | 0 <= i < |items| ::
               items[i].Gives? && Unfolds(h, items[i].value, trees[i]) && Outside(h, ancestors, trees[i])
    ensures CheckItems(h, guarded, items, ancestors, depth)
            == if forall i | 0 <= i < |trees| :: Height(trees[i]) + depth <= MAXIMUM_DEPTH then Accepted else Rejected(TooDeep)
    decreases trees
  {
    hide Check, Unfolds, Outside, Height, ForbiddenKey;
    if items != [] {
      var n := |items| - 1;
      ItemsVerdict(h, guarded, items[..n], trees[..n], ancestors, depth);
      FiniteVerdict(h, guarded, items[n].value, trees[n], ancestors, depth);
      assert forall i | 0 <= i < n :: trees[..n][i] == trees[i];
    }
  }

  lemma {:induction false} EntriesVerdict(h: Heap, guarded: bool, entries: seq<Slot>, trees: seq<Json>, ancestors: set<Ref>, depth: nat)
    requires depth <= MAXIMUM_DEPTH + 1 && |entries| == |trees|
    requires forall i | 0 <= i < |entries| ::
               !ForbiddenKey(entries[i].key) && entries[i].read.Gives?
               && Unfolds(h, entries[i].read.value, trees[i]) && Outside(h, ancestors, trees[i])
    ensures CheckEntries(h, guarded, entries, ancestors, depth)
            == if forall i | 0 <= i < |trees| :: Height(trees[i]) + depth <= MAXIMUM_DEPTH then Accepted else Rejected(TooDeep)
    decreases trees
  {
    hide Check, Unfolds, Outside, Height, ForbiddenKey;
    if entries != [] {
      var n := |entries| - 1;
      EntriesVerdict(h, guarded, entries[..n], trees[..n], ancestors, depth);
      FiniteVerdict(h, guarded, entries[n].read.value, trees[n], ancestors, depth);
      assert forall i | 0 <= i < n :: trees[..n][i] == trees[i];
    }
  }

  /** Whatever is accepted has a finite unfolding, built along the walk. */
  lemma {:induction false} AcceptedUnfolds(h: Heap, guarded: bool, v: Value, ancestors: set<Ref>, depth: nat) returns (t: Json)
    requires depth <= MAXIMUM_DEPTH + 1 && Check(h, guarded, v, ancestors, depth).Accepted?
    ensures Unfolds(h, v, t)
    decreases MAXIMUM_DEPTH + 1 - depth, 0, 0
  {
    t := Leaf;
    if v.Object? {
      var node := At(h, v.ref);
      if node.ArrayNode? {
        var trees := ItemsUnfold(h, guarded, node.items, ancestors + {v.ref}, depth + 1);
        t := Array(trees);
      } else {
        var trees := EntriesUnfold(h, guarded, node.entries, ancestors + {v.ref}, depth + 1);
        t := Record(trees);
      }
    }
  }

  lemma {:induction false} ItemsUnfold(h: Heap, guarded: bool, items: seq<Read>, ancestors: set<Ref>, depth: nat) returns (trees: seq<Json>)
    requires depth <= MAXIMUM_DEPTH + 1 && CheckItems(h, guarded, items, ancestors, depth).Accepted?
    ensures |trees| == |items|
    ensures forall i | 0 <= i < |items| :: items[i].Gives? && Unfolds(h, items[i].value, trees[i])
    decreases MAXIMUM_DEPTH + 1 - depth, 1, |items|
  {
    trees := [];
    if items != [] {
      var n := |items| - 1;
      trees := ItemsUnfold(h, guarded, items[..n], ancestors, depth);
      assert forall i | 0 <= i < n :: items[..n][i] == items[i];
      var last := AcceptedUnfolds(h, guarded, items[n].value, ancestors, depth);
      trees := trees + [last];
    }
  }

  lemma {:induction false} EntriesUnfold(h: Heap, guarded: bool, entries: seq<Slot>, ancestors: set<Ref>, depth: nat) returns (trees: seq<Json>)
    requires depth <= MAXIMUM_DEPTH + 1
    requires forall i | 0 <= i < |entries| :: entries[i].read.Gives?
    requires CheckEntries(h, guarded, entries, ancestors, depth).Accepted?
    ensures |trees| == |entries|
    ensures forall i | 0 <= i < |entries| :: !ForbiddenKey(entries[i].key) && Unfolds(h, entries[i].read.value, trees[i])
    decreases MAXIMUM_DEPTH + 1 - depth, 1, |entries|
  {
    trees := [];
    if entries != [] {
      var n := |entries| - 1;
      trees := EntriesUnfold(h, guarded, entries[..n], ancestors, depth);
      assert forall i | 0 <= i < n :: entries[..n][i] == entries[i];
      var last := AcceptedUnfolds(h, guarded, entries[n].read.value, ancestors, depth);
      trees := trees + [last];
    }
  }

  /** The validator accepts exactly the values whose unfolding is finite, at most twelve deep, and made only of finite
      scalars, arrays and plain records without a forbidden key. It reports a cycle only where there is no finite
      unfolding at all, and the ancestor test never decides whether a value is accepted. */
  lemma AcceptsExactlyFiniteTrees(h: Heap, guarded: bool, v: Value)
    ensures Check(h, guarded, v, {}, 0).Accepted? <==> exists t :: Unfolds(h, v, t) && Height(t) <= MAXIMUM_DEPTH
    ensures Check(h, guarded, v, {}, 0) == Rejected(Cycle) ==> forall t :: !Unfolds(h, v, t)
    ensures Check(h, true, v, {}, 0).Accepted? <==> Check(h, false, v, {}, 0).Accepted?
  {
    forall t | Unfolds(h, v, t)
      ensures Check(h, true, v, {}, 0) == Check(h, false, v, {}, 0)
                == if Height(t) <= MAXIMUM_DEPTH then Accepted else Rejected(TooDeep)
    {
      FiniteVerdict(h, true, v, t, {}, 0);
      FiniteVerdict(h, false, v, t, {}, 0);
    }
    if Check(h, true, v, {}, 0).Accepted? {
      var t := AcceptedUnfolds(h, true, v, {}, 0);
      assert Unfolds(h, v, t);
    }
    if Check(h, false, v, {}, 0).Accepted? {
      var t := AcceptedUnfolds(h, false, v, {}, 0);
      assert Unfolds(h, v, t);
    }
    assert guarded == true || guarded == false;
  }

  /** Every field or item of the node is the same object. */
  predicate HoldsOnly(node: Node, shared: Ref) {
    match node
    case ArrayNode(items) => forall i | 0 <= i < |items| :: items[i] == Gives(Object(shared))
    case PlainRecord(entries) =>
      forall i | 0 <= i < |entries| :: !ForbiddenKey(entries[i].key) && entries[i].read == Gives(Object(shared))
    case OtherObject => false
  }

  /** Sharing is no cycle: one object any number of times in an array, or under any number of allowed keys, is accepted
      when it is accepted alone, one level higher up. */
  lemma SharedNodesAreAccepted(h: Heap, shared: Ref, root: Ref, t: Json)
    requires HoldsOnly(At(h, root), shared)
    requires Unfolds(h, Object(shared), t) && Height(t) < MAXIMUM_DEPTH
    ensures Check(h, true, Object(root), {}, 0).Accepted?
  {
    hide ForbiddenKey, Check, Height;
    var node := At(h, root);
    var copies := seq(if node.ArrayNode? then |node.items| else |node.entries|, _ => t);
    var whole := if node.ArrayNode? then Array(copies) else Record(copies);
    HeightBelow(whole, MAXIMUM_DEPTH - 1);
    assert Unfolds(h, Object(root), whole);
    AcceptsExactlyFiniteTrees(h, true, Object(root));
  }

  /* ---- The program ---- */

  class AncestorSet {
    var refs: set<Ref>

    constructor ()
      ensures refs == {}
    {
      refs := {};
    }
  }

  /** assertPayloadValue. Whether it returns or throws, the set of ancestors is what it was. */
  method AssertPayloadValue(h: Heap, v: Value, ancestors: AncestorSet, depth: nat) returns (verdict: Verdict)
    requires depth <= MAXIMUM_DEPTH + 1
    modifies ancestors
    ensures ancestors.refs == old(ancestors.refs)
    ensures verdict == Check(h, true, v, old(ancestors.refs), depth)
    decreases MAXIMUM_DEPTH + 1 - depth, 1
  {
    if depth > MAXIMUM_DEPTH {
      return Rejected(TooDeep);
    }
    match v
    case JsonNull => return Accepted;
    case Text(_) => return Accepted;
    case Boolean(_) => return Accepted;
    case Number(finite) => return if finite then Accepted else Rejected(NonFiniteNumber);
    case Unserializable => return Rejected(NotJson);
    case Object(r) =>
      if r in ancestors.refs {
        return Rejected(Cycle);
      }
      ancestors.refs := ancestors.refs + {r};
      var node := At(h, r);
      if node.ArrayNode? {
        verdict := AssertItems(h, node.items, ancestors, depth + 1);
      } else if node.PlainRecord? {
        verdict := AssertEntries(h, node.entries, ancestors, depth + 1);
      } else {
        verdict := Rejected(NotPlain);
      }
      ancestors.refs := ancestors.refs - {r};
  }

  method AssertItems(h: Heap, items: seq<Read>, ancestors: AncestorSet, depth: nat) returns (verdict: Verdict)
    requires depth <= MAXIMUM_DEPTH + 1
    modifies ancestors
    ensures ancestors.refs == old(ancestors.refs)
    ensures verdict == CheckItems(h, true, items, old(ancestors.refs), depth)
    decreases MAXIMUM_DEPTH + 1 - depth, 2
  {
    for i := 0 to |items|
      invariant ancestors.refs == old(ancestors.refs)
      invariant CheckItems(h, true, items[..i], old(ancestors.refs), depth).Accepted?
    {
      assert items[..i + 1][..i] == items[..i];
      if items[i].Throws? {
        verdict := Rejected(ReadFailed);
      } else {
        verdict := AssertPayloadValue(h, items[i].value, ancestors, depth);
      }
      if verdict.Rejected? {
        RejectedItemsPrefix(h, items, i + 1, ancestors.refs, depth);
        return;
      }
    }
    assert items[..|items|] == items;
    verdict := Accepted;
  }

  lemma {:induction false} RejectedItemsPrefix(h: Heap, items: seq<Read>, i: nat, ancestors: set<Ref>, depth: nat)
    requires depth <= MAXIMUM_DEPTH + 1 && i <= |items|
    requires CheckItems(h, true, items[..i], ancestors, depth).Rejected?
    ensures CheckItems(h, true, items, ancestors, depth) == CheckItems(h, true, items[..i], ancestors, depth)
    decreases |items|
  {
    if i == |items| {
      assert items[..i] == items;
    } else {
      var n := |items| - 1;
      assert items[..n][..i] == items[..i];
      RejectedItemsPrefix(h, items[..n], i, ancestors, depth);
    }
  }

  /** Object.entries first, then the loop over keys and values. */
  method AssertEntries(h: Heap, entries: seq<Slot>, ancestors: AncestorSet, depth: nat) returns (verdict: Verdict)
    requires depth <= MAXIMUM_DEPTH + 1
    modifies ancestors
    ensures ancestors.refs == old(ancestors.refs)
    ensures verdict ==
      if exists i :: 0 <= i < |entries| && entries[i].read.Throws? then Rejected(ReadFailed)
      else CheckEntries(h, true, entries, old(ancestors.refs), depth)
    decreases MAXIMUM_DEPTH + 1 - depth, 2
  {
    for i := 0 to |entries|
      invariant forall k | 0 <= k < i :: entries[k].read.Gives?
      invariant ancestors.refs == old(ancestors.refs)
    {
      if entries[i].read.Throws? {
        return Rejected(ReadFailed);
      }
    }
    for i := 0 to |entries|
      invariant ancestors.refs == old(ancestors.refs)
      invariant CheckEntries(h, true, entries[..i], old(ancestors.refs), depth).Accepted?
    {
      assert entries[..i + 1][..i] == entries[..i];
      if ForbiddenKey(entries[i].key) {
        verdict := Rejected(ForbiddenField);
      } else {
        verdict := AssertPayloadValue(h, entries[i].read.value, ancestors, depth);
      }
      if verdict.Rejected? {
        RejectedEntriesPrefix(h, entries, i + 1, ancestors.refs, depth);
        return;
      }
    }
    assert entries[..|entries|] == entries;
    verdict := Accepted;
  }

  lemma {:induction false} RejectedEntriesPrefix(h: Heap, entries: seq<Slot>, i: nat, ancestors: set<Ref>, depth: nat)
    requires depth <= MAXIMUM_DEPTH + 1 && i <= |entries|
    requires forall k | 0 <= k < |entries| :: entries[k].read.Gives?
    requires CheckEntries(h, true, entries[..i], ancestors, depth).Rejected?
    ensures CheckEntries(h, true, entries, ancestors, depth) == CheckEntries(h, true, entries[..i], ancestors, depth)
    decreases |entries|
  {
    if i == |entries| {
      assert entries[..i] == entries;
    } else {
      var n := |entries| - 1;
      assert entries[..n][..i] == entries[..i];
      RejectedEntriesPrefix(h, entries[..n], i, ancestors, depth);
    }
  }
}
